# node-red-mp4frag, modelled in Dafny

The Node-RED node `mp4frag` receives the fragments of a fragmented MP4 stream
as buffers. It hands them to the `mp4frag` package, which parses them and
keeps a window of recent segments. The node then republishes that stream
three ways:

- as Node-RED messages on its second output (the initialization, a
  pre-buffer of recent segments, then every new segment while "writing");
- to socket.io clients that asked for segments;
- to HTTP clients of `/video.mp4`.

This project models the node's own logic, which lives in `mp4frag.js`. The
package is represented by an abstract state: its initialization, its segment
objects, whether every segment is a keyframe, and its latest segment.

The modules follow the node's pieces:

- `JsValues`, `ParseInt`: JavaScript's `ToString` and `parseInt` without a
  radix (ECMA-262, sections 7.1.17 and 19.2.5), and `getInt`, which clamps
  the parsed value. Values include arrays, which a repeated query key or an
  input message can bring.
- `OrderedMap`: JavaScript's `Map` and `Set` as insertion-ordered sequences.
  `set` on a present key keeps its position, and `delete` closes the gap.
- `SegmentIndex`, `Cache`: the backward scan `getSegmentObjectLastIndex`, as a
  loop in the class `Mp4Frag` (the abstract package state), proved against a
  specification function.
- `Messages`, `Writing`: the messages the node sends, and the writer state
  machine (`startWriting`, `stopWriting`, and the writer closures for the
  unlimited, single and continuous modes) as functions with lemmas.
- `Registry`: the base-path validation, the shared `basePathMap` (a class)
  and the derived topics.
- `Subscribers`: the socket map, the HTTP response set, the socket `segment`
  request and the `/video.mp4` decision, as specification functions.
- `Dispatch`: how `handleMsg` classifies an input message.
- `Node`: the class `Mp4fragNode` with the node's fields. Its methods are the
  event handlers and the node operations. They update the fields in place,
  with loops over the socket map and the response set where the source has
  them. Each method is proved against the functions of the modules above.

Modelling conventions:

- `Date.now()` is a parameter `now`.
- Everything the node sends is appended to logs: `sent` for Node-RED
  messages, `socketLog` for socket emits, `httpLog` for HTTP writes, ends and
  replies.
- JavaScript numbers are integers, except durations, which are `real`.
- Socket and response objects are opaque identifiers. A socket's `connected`
  flag is the set `connected` passed to the segment handler. A response's
  `writableEnded` is the set `ended`.
- `resetCache` clears the package's state and then runs the node's 'reset'
  listener synchronously, as an EventEmitter does.

## Model

| member | source | states |
|---|---|---|
| ParseInt.GetInt | mp4frag.js:894-898 | NaN gives `def`. Otherwise, with min <= max, the result lies in [min, max] and equals the parsed value exactly when that value is in range. Below min gives min; above max gives max. |
| ParseInt.GetIntIdempotent | mp4frag.js:894-898 | When def lies in [min, max] and the bounds are plain numbers, clamping the result again returns the same value. |
| ParseInt.DecimalRoundTrip | mp4frag.js:894-898 | parseInt of a number below 10^21 in magnitude returns that number, so getInt passes an in-range number through unchanged. |
| ParseInt.TrimStartRemovesLeadingWhiteSpace | mp4frag.js:895 | parseInt's trim drops exactly the leading white space: what it drops is white space, what it keeps is a suffix that does not start with white space. |
| ParseInt.DigitPrefixLength | mp4frag.js:895 | The digit run parseInt reads is the longest prefix of radix digits: every character in it is a digit, and the next one is not. |
| ParseInt.LeadingWhiteSpaceIgnored | mp4frag.js:895 | White space before the number does not change parseInt's result. |
| ParseInt.TrailingCharactersIgnored | mp4frag.js:895 | A digit run followed by a non-digit parses as the value of the digit run alone. |
| ParseInt.DigitPrefixStops | mp4frag.js:895 | The digit run ends at the first non-digit. |
| ParseInt.TrimStartSkipsWhiteSpace | mp4frag.js:895 | Trimming ignores any white-space prefix. |
| ParseInt.ToStringOfPlainNumber | mp4frag.js:895 | A number below 10^21 in magnitude becomes its decimal digits, with '-' when negative. |
| ParseInt.ParseIntStringOfDigits | mp4frag.js:895 | A string starting with a decimal digit parses unsigned; '-' before it negates the value. |
| ParseInt.ParseUnsignedDecimal | mp4frag.js:895 | The decimal digits of m parse back to m. |
| ParseInt.DigitsValueOfDecimal | mp4frag.js:895 | The value of the decimal digits of n is n. |
| ParseInt.DigitPrefixOfDigits | mp4frag.js:895 | A string made only of decimal digits is read whole. |
| ParseInt.DigitRunRead | mp4frag.js:895 | A run of decimal digits followed by anything that is not a digit, and not forming a "0x" prefix, reads as the value of the run. |
| ParseInt.DecimalDigitsRead | mp4frag.js:895 | After any white space, with or without a '+', a decimal digit run reads as its value whatever follows it. |
| ParseInt.SignedDigits | mp4frag.js:895 | A string that starts with a digit reads as its unsigned value, the same after '+', and negated after '-', with any white space before it. |
| ParseInt.SignRead | mp4frag.js:895 | A leading sign is consumed and the rest parsed unsigned; '-' negates the value. |
| ParseInt.HexDigitsRead | mp4frag.js:895 | After a "0x" or "0X" prefix, a run of hexadecimal digits reads as its radix-16 value whatever follows it. |
| ParseInt.HexPrefixWithoutDigits | mp4frag.js:895 | A "0x" or "0X" prefix not followed by a hexadecimal digit is NaN. |
| ParseInt.HexPrefixRead | mp4frag.js:895 | After a "0x" or "0X" prefix the rest is read in radix 16. |
| ParseInt.ParseIntString | mp4frag.js:895 | parseInt on a string with no radix: skip white space, read an optional sign, switch to radix 16 after "0x", read the longest digit run; NaN when there is none. Its properties are the lemmas above. |
| ParseInt.ParseInt | mp4frag.js:895 | parseInt on any value: ToString, then `ParseIntString`. |
| JsValues.ToString | mp4frag.js:895 | ECMA-262 ToString of undefined, null, booleans, integers (plain decimal below 10^21, exponent notation above), strings, plain objects and arrays (joined with ","). `ToStringOfPlainNumber` and `NaturalToStringStartsWithDigit` state its number cases, `ArrayToString` its array case. |
| JsValues.ArrayToString | mp4frag.js:895 | An array becomes the join of its elements: "" for none, the element for one, otherwise the first element, a comma and the join of the rest; undefined and null elements are written as "". |
| ParseInt.CommaEndsTheNumber | mp4frag.js:895 | For every string `s` and every tail starting with ",", parseInt reads `s` followed by the tail exactly as it reads `s`. |
| ParseInt.ArrayReadsFirstElement | mp4frag.js:895 | parseInt of an array is parseInt of its first element as the join writes it; NaN for an empty array or a first element that is undefined or null. |
| ParseInt.RepeatedKeyReadsFirstValue | mp4frag.js:542 | A query key given several times (`?preBuffer=3&preBuffer=4`) reaches getInt as an array of strings, and getInt returns what it returns for the first value alone. |
| JsValues.Decimal | mp4frag.js:895 | The decimal rendering of a natural number is non-empty and all digits. It has a leading '0' only for 0, and one digit exactly below 10. |
| SegmentIndex.CountEligible | mp4frag.js:949-955 | Counts the segments the scan accepts: at most the list's length, and all of them when every segment is a keyframe. |
| SegmentIndex.LastIndex | mp4frag.js:942-958 | A recursive reference definition of getSegmentObjectLastIndex, read from the end of the list. `LastIndexSpec` states what it returns. |
| SegmentIndex.LastIndexMeets | mp4frag.js:942-958 | The promise of getSegmentObjectLastIndex: -1 exactly when there is nothing to find; otherwise an eligible index with min(limit, #eligible) eligible segments from it on. |
| SegmentIndex.LastIndexSpec | mp4frag.js:942-958 | -1 exactly when the list is empty, limit <= 0 or no segment is eligible. Otherwise the index is of an eligible segment, and the suffix from it holds min(limit, #eligible) eligible segments. |
| SegmentIndex.LastIndexUnique | mp4frag.js:942-958 | Only one index meets that description, so the specification determines the result. |
| SegmentIndex.LastIndexAllKeyframes | mp4frag.js:942-958 | When every segment is a keyframe, the index is max(0, length - limit), or -1 for an empty list or limit <= 0. |
| SegmentIndex.SuffixCountDeterminesIndex | mp4frag.js:949-955 | Two eligible positions with equally many eligible segments from them on are the same position. |
| SegmentIndex.StrictlyMoreFromEarlierEligible | mp4frag.js:949-955 | An eligible position has strictly more eligible segments from it on than any later position. |
| SegmentIndex.CountEligibleAppend | mp4frag.js:949-955 | The eligible count of a concatenation is the sum of the counts. |
| SegmentIndex.Concat | mp4frag.js:376 | A burst of one segment is that segment's bytes. |
| Cache.ScanComplete | mp4frag.js:949-955 | Where the backward loop stops, the index it holds meets the specification. |
| Cache.Mp4Frag.GetSegmentObjectLastIndex | mp4frag.js:942-958 | The loop's result meets the specification and equals `LastIndex`. It modifies nothing. |
| Cache.Mp4Frag.constructor | mp4frag.js:121 | A new package instance has the given configuration, no initialization and no segments. |
| Cache.Mp4Frag.Write | mp4frag.js:836 | The package receives the chunk, appended to what it was given. |
| Cache.Mp4Frag.ResetCache | mp4frag.js:681 | The initialization, the segment list and the latest segment are cleared. |
| Messages.SegmentMessages | mp4frag.js:738-742 | One message per segment, in order, each carrying that segment. |
| Writing.ResolveArgs | mp4frag.js:711-715 | With valid defaults, timeLimit lies in [-1, MAX_SAFE_INTEGER] and preBuffer in [0, 5]. `repeated` is the argument when it is a boolean, the node's setting otherwise. |
| Writing.StartWriting | mp4frag.js:700-797 | startWriting: the arguments resolved by `ResolveArgs`, then `StartResolved`. The writer lemmas below state its behaviour. |
| Writing.StartResolved | mp4frag.js:702-796 | The body of startWriting on resolved arguments: nothing without an initialization; while writing only a single-to-single call moves endTime; otherwise the initialization and pre-buffer are sent and the writer of the mode is installed. |
| Writing.Stop | mp4frag.js:799-817 | stopWriting: a writing writer is cleared and the empty retained buffer sent; a stopped writer is left alone. |
| Writing.Deliver | mp4frag.js:190-192 | The writer closure on a segment: the segment is sent; a single writer past its end time stops; a continuous writer past its end time stops and starts again with its captured arguments. |
| Writing.StartFromStopped | mp4frag.js:700-797 | From a stopped writer with an initialization, the writer ends up writing. The mode is unlimited iff timeLimit == -1, continuous iff repeated otherwise, single otherwise. A single writer gets endTime = now + timeLimit. It sends the initialization and then the pre-buffer. |
| Writing.StartWithoutInitialization | mp4frag.js:703-709 | Without an initialization nothing changes and nothing is sent. |
| Writing.StartWhileWriting | mp4frag.js:719-724 | While writing, nothing is sent and only endTime may change. It changes only for a single-to-single call, to now + timeLimit. |
| Writing.StopIdempotent | mp4frag.js:799-817 | Stopping a writing writer clears the mode, the closure and endTime, and sends the empty retained buffer. Stopping a stopped writer does nothing, so stopping twice equals stopping once. |
| Writing.SingleWriterStops | mp4frag.js:759-771 | A single writer sends the segment. It stops once now >= endTime, and otherwise stays as it was. |
| Writing.ContinuousWriterRestarts | mp4frag.js:773-785 | A continuous writer past its end time sends the segment, stops and starts again. The result is writing with a fresh end time, the same arguments, and the initialization and pre-buffer sent again. |
| Writing.RestartArgumentsUnchanged | mp4frag.js:783 | Passing the captured, already-clamped arguments back through startWriting resolves them to themselves. |
| Writing.ClampedArgsRoundTrip | mp4frag.js:711-715 | Arguments already in range resolve to themselves. |
| Writing.StepsKeepWriterValid | mp4frag.js:700-817 | Start, stop and segment delivery keep the writer's fields consistent. Stopped means all cleared. Each mode has its own closure, and only single keeps endTime. |
| Registry.TopicsFor | mp4frag.js:100-107 | The four topics are `mp4frag/<basePath>/status` and `.../buffer/init`, `pre`, `seg`. |
| Registry.TopicsInjective | mp4frag.js:100-107 | Different base paths give different status topics. |
| Registry.CreatePathsOutcome | mp4frag.js:87-98 | Rejected as invalid iff the path differs from the id and fails `/^[a-z\d_.]{1,50}$/i`. Rejected as a duplicate iff it passes that test and the map holds the path for another id. Otherwise the result is the topics. |
| Registry.BasePathRegistry.constructor | mp4frag.js:905 | The shared map starts empty. |
| Registry.BasePathRegistry.CreatePaths | mp4frag.js:87-107 | The outcome is `CreatePathsOutcome`. On success the path's entry is (re)set to {id, running: false, serveHttp: false, serveIo: false}. On failure the map is unchanged. |
| Registry.BasePathRegistry.DestroyPaths | mp4frag.js:109-114 | Only the node's entry is deleted. |
| Registry.BasePathRegistry.SetRunning | mp4frag.js:130-132 | Only the `running` flag of the node's entry changes. |
| Registry.BasePathRegistry.SetServing | mp4frag.js:415-417 | Only the serving flags of the node's entry change. |
| Registry.CreateThenDestroy | mp4frag.js:87-114 | Registering a new path and destroying it leaves the map as it was. |
| Registry.OwnIdAccepted | mp4frag.js:88 | A node whose base path is its own id is accepted, unless another node holds that id as its path. |
| Registry.ReRegisterKeepsOthers | mp4frag.js:92-98 | Re-registering one's own path keeps the size of the map and every other entry. |
| Registry.ValidBasePathIsOneSegment | mp4frag.js:903 | A base path that passes the pattern has 1 to 50 characters and no '/', '?' or '#', so it forms one route segment and one topic level. |
| OrderedMap.IndexOf | mp4frag.js:92 | The position found holds the key, no earlier entry does, and -1 means absent. |
| OrderedMap.Get | mp4frag.js:92 | `get` finds a value iff the key is present, and the pair is in the map. |
| OrderedMap.Set | mp4frag.js:98 | After `set`, get(k) is v and every other key is unchanged. A present key keeps its position; an absent one is appended. |
| OrderedMap.SetTwice | mp4frag.js:381 | A second `set` of the same key overrides the first in place. |
| OrderedMap.Delete | mp4frag.js:111 | After `delete`, the key is absent and every other key is unchanged. The size drops by one iff the key was present. |
| OrderedMap.SetThenDelete | mp4frag.js:98-111 | Deleting a key just appended restores the map. |
| OrderedMap.DeleteVisited | mp4frag.js:167-177 | Deleting the entry a forEach is visiting removes exactly that entry and leaves the rest in order. |
| OrderedMap.Add | mp4frag.js:558 | `add` keeps a present element where it is and appends an absent one. |
| OrderedMap.Remove | mp4frag.js:561 | `delete` removes exactly that element. On a set without duplicates its slot closes and every other element keeps its place in insertion order. |
| OrderedMap.AddKeepsDistinct | mp4frag.js:558 | Adding keeps the set free of duplicates. |
| OrderedMap.RemoveKeepsDistinct | mp4frag.js:561 | Removal keeps the set free of duplicates. |
| Subscribers.Receivers | mp4frag.js:166-170 | The sockets a segment is emitted to: the connected ones, in map order. `ReceiversMembership` states it. |
| Subscribers.KeptAfterSegment | mp4frag.js:166-176 | The map after a segment: the connected sockets flagged true, in order. `KeptMembership` and `KeptDistinct` state it. |
| Subscribers.SegmentWrites | mp4frag.js:180-188 | The writes of a segment: its bytes to every waiting response not yet ended, in set order. `SegmentWritesMembership` states it. |
| Subscribers.ResetEnds | mp4frag.js:212-219 | The ends of a reset: every waiting response not yet ended, in set order. `ResetEndsMembership` states it. |
| Subscribers.ReceiversMembership | mp4frag.js:166-170 | A socket of the map is sent the segment iff it is connected. |
| Subscribers.KeptMembership | mp4frag.js:166-176 | An entry stays in the map iff its socket is connected and its flag is true. |
| Subscribers.KeptDistinct | mp4frag.js:166-176 | The map after a segment still has no repeated socket. |
| Subscribers.SegmentFanOut | mp4frag.js:166-176 | For one socket of the map: it receives the segment iff connected, and stays iff connected and flagged true. |
| Subscribers.SegmentWritesMembership | mp4frag.js:180-188 | A segment writes its bytes to exactly the waiting responses that have not ended. |
| Subscribers.ResetEndsMembership | mp4frag.js:212-219 | A reset ends exactly the waiting responses that have not ended. |
| Subscribers.JoinReply | mp4frag.js:359-385 | The reply to a request without a timestamp. `JoinRequestPlan` states it. |
| Subscribers.SegmentRequestAsWritten | mp4frag.js:345-385 | The request handler as written: a TypeError on null data and on a numeric timestamp while there is no latest segment; otherwise the timestamp reply or the join reply. |
| Subscribers.SegmentRequest | mp4frag.js:345-385 | The corrected request handler never throws. Null data is answered as a request without data; a timestamp with no latest segment waits for the next segment. |
| Subscribers.SegmentRequestAsWrittenThrows | mp4frag.js:350-353 | As written, every request with a numeric timestamp throws while there is no latest segment, whatever the timestamp and `all`. |
| Subscribers.SegmentRequestAsWrittenThrowsOnNull | mp4frag.js:345-350 | As written, a request whose data is null throws, whatever the package holds. |
| Subscribers.SegmentRequestCorrectsOnlyTheThrow | mp4frag.js:345-385 | The handler as written throws iff the data is null, or the timestamp is a number and there is no latest segment. The corrected handler agrees with it everywhere else, answers null data as the as-written handler answers `{}`, and registers a timestamped socket as next-only when there is no segment. |
| Subscribers.TimestampRequestPlan | mp4frag.js:350-357 | A newer latest segment is sent at once and the map is untouched. Otherwise the socket is registered as next-only (false). |
| Subscribers.JoinRequestPlan | mp4frag.js:359-385 | With an eligible segment, the reply is the concatenation and summed duration from the last eligible segment on, and the socket is registered as `true` unless `all === false`. Without one, nothing is sent and the flag is `all !== false`. |
| Subscribers.ByteRangeMeansPattern | mp4frag.js:533 | The range test accepts exactly "bytes=" digits "-" digits. |
| Subscribers.ByteRangeOfParts | mp4frag.js:533 | Every "bytes=a-b" with non-empty digit runs is refused. |
| Subscribers.ExplicitRangeRefused | mp4frag.js:533 | Every explicit numeric range is refused. |
| Subscribers.NonStringRangeAccepted | mp4frag.js:533 | A Range header that is neither a string nor an array, a missing one (undefined) included, is never refused: its ToString does not start with "bytes=". |
| Subscribers.NaturalToStringStartsWithDigit | mp4frag.js:533 | Number::toString of a non-negative integer starts with a digit. |
| Subscribers.OpenRangeAccepted | mp4frag.js:533 | Every open range "bytes=" digits "-", with nothing after the '-', is accepted. |
| Subscribers.VideoRequest | mp4frag.js:530-574 | The route's decision: 416 for a byte range, 404 without an initialization, otherwise the initialization and the pre-buffer. `VideoRequestDecision` states it. |
| Subscribers.VideoRequestDecision | mp4frag.js:530-574 | For every input: 416 iff the Range header is a single explicit byte range; otherwise 404 iff there is no initialization; otherwise the initialization, then the segments from the index that meets the getSegmentObjectLastIndex promise for getInt(0, 5, 1, preBuffer) on, or the initialization alone when that index is -1. The clamped pre-buffer lies in [0, 5]. |
| Subscribers.Segments | mp4frag.js:550-552 | One write per segment, in order, with that segment's bytes. |
| Subscribers.VideoMatchesWriterPreBuffer | mp4frag.js:540-554 | A streamed response gets the initialization and then exactly the payloads of the writer's pre-buffer for the same count. |
| Subscribers.PreBuffersAgree | mp4frag.js:544-554 | The HTTP pre-buffer and the writer's pre-buffer carry the same segments. |
| Dispatch.Classify | mp4frag.js:831-880 | A buffer always wins: non-empty writes, empty resets. Reset iff an empty buffer, or no action object and a `code` or `signal`. A TypeError iff the action is null, or absent with a nullish payload. An action object never looks at code or signal. |
| Dispatch.WriteCommands | mp4frag.js:846-869 | Subject `write`: 'start' starts, 'restart' restarts, any other command stops. Other subjects do nothing. |
| Node.SettingsOf | mp4frag.js:36-56 | Numeric settings are clamped into their ranges. The flags are exactly the comparisons with 'false' or 'true', and socket.io is served only when available. |
| Node.SettingsInRange | mp4frag.js:36-56 | The settings, and the defaults startWriting takes from them, are always in range. |
| Node.DefaultsOf | mp4frag.js:711-715 | startWriting's fallbacks are in range whenever the settings are. |
| Node.Mp4FragConfigOf | mp4frag.js:117-119 | An HLS playlist configuration iff HTTP is served. Otherwise a segment count of size + extra. |
| Node.PlaylistOf | mp4frag.js:263-277 | The playlist announced on the first segment: the hls.m3u8 and video.mp4 paths when HTTP is served, the socket.io client details when socket.io is served. |
| Node.FirstSegmentListener | mp4frag.js:134-152 | One once-listener on the first segment: it announces the playlist when anything is served and starts writing with no pre-buffer when autoStart is set. `AutoStartWrites` and `AutoStartSkipsPreBuffer` state it. |
| Node.Mp4fragNode.constructor | mp4frag.js:31-79 | A new node is stopped, with no playlist, subscribers or output. |
| Node.CreateNode | mp4frag.js:31-79 | Construction fails, leaving the map unchanged, exactly when `createPaths` rejects the path. On success the node is valid, with the settings, topics, package configuration and playlist derived from the config, and its registry entry records what it serves. |
| Node.Mp4fragNode.StartWriting | mp4frag.js:700-797 | The new writer state and the messages sent are those of `Writing.StartWriting` on the raw arguments. |
| Node.Mp4fragNode.StartWithArgs | mp4frag.js:717-796 | With resolved arguments, the new state and the messages sent are those of `StartResolved`. |
| Node.Mp4fragNode.SendPreBuffer | mp4frag.js:728-744 | Sends exactly the pre-buffer messages. |
| Node.Mp4fragNode.SendSegments | mp4frag.js:733-742 | The loop sends one pre-buffer message per segment from lastIndex on. |
| Node.Mp4fragNode.InstallWriter | mp4frag.js:750-792 | Installs the closure of the mode, with endTime only for single, and sets writing. |
| Node.Mp4fragNode.StopWriting | mp4frag.js:799-817 | The new state and the messages sent are those of `Stop`. |
| Node.Mp4fragNode.CallWriter | mp4frag.js:753-785 | Calling the installed closure on a segment gives the state and messages of `Deliver`. |
| Node.Mp4fragNode.Reset | mp4frag.js:678-682 | Stops writing and clears the package. The reset listener then ends the waiting responses, marks the node not running and clears the playlist, announcing that if there was one. |
| Node.Mp4fragNode.OnError | mp4frag.js:202-210 | Stops writing and resets the cache, with the same effects as `Reset`. |
| Node.Mp4fragNode.OnReset | mp4frag.js:212-237 | Ends every waiting response not yet ended and sets running to false. A playlist is cleared and announced. |
| Node.Mp4fragNode.EndResponses | mp4frag.js:213-219 | The loop ends exactly the waiting responses not yet ended, in order. |
| Node.Mp4fragNode.OnInitialized | mp4frag.js:123-152 | Sends the initialized status when statusData is 'all', sets running, and adds one once-listener for the first segment. |
| Node.Mp4fragNode.FireFirstSegmentListeners | mp4frag.js:134-152 | Fires every pending once-listener in turn, leaving none. |
| Node.Mp4fragNode.FirstSegment | mp4frag.js:134-152 | Sets and announces the playlist when anything is served, and starts writing when autoStart is set. |
| Node.AutoStartWrites | mp4frag.js:147-149 | With autoStart and an initialization, the node is writing after the first segment. |
| Node.AutoStartArgumentsResolved | mp4frag.js:148 | startWriting(0, timeLimit, repeated) resolves to the settings' values, with no pre-buffer. |
| Node.AutoStartSkipsPreBuffer | mp4frag.js:134-152 | From stopped, the first segment sends the playlist status (when served) and the initialization, and no pre-buffer. |
| Node.Mp4fragNode.NotifySockets | mp4frag.js:165-178 | Every connected socket of the map is sent the segment, in map order. Sockets flagged false and disconnected sockets leave the map; the map keeps no repeated socket. |
| Node.WalkSockets | mp4frag.js:165-178 | The forEach that deletes while it iterates ends with the kept entries, having emitted to the connected sockets. |
| Node.Mp4fragNode.WriteResponses | mp4frag.js:180-188 | Every waiting response not yet ended gets the segment bytes, in set order. |
| Node.Mp4fragNode.OnSegment | mp4frag.js:134-200 | Pending once-listeners first. Then the socket fan-out, the response writes, the writer's delivery when writing, and the segment status. |
| Node.Mp4fragNode.SegmentListener | mp4frag.js:157-200 | The node's own segment listener: socket fan-out, response writes, writer delivery when writing, and the segment status when statusData is 'all'. |
| Node.Mp4fragNode.SocketSegmentRequest | mp4frag.js:345-386 | The socket map and the emitted reply follow the corrected `SegmentRequest`, for null data as well (see Findings). |
| Node.Mp4fragNode.TimestampRequest | mp4frag.js:350-357 | A newer latest segment is emitted, otherwise the socket is registered as next-only. With no segment yet it is registered as next-only (see Findings). |
| Node.Mp4fragNode.JoinRequest | mp4frag.js:359-385 | Emits the burst of `JoinReply` and registers the socket as it says. |
| Node.Mp4fragNode.JoinBurst | mp4frag.js:362-376 | The loop concatenates the segments from lastIndex on and sums their durations. |
| Node.Mp4fragNode.SocketDisconnect | mp4frag.js:389-391 | Deletes exactly that socket from the map. |
| Node.Mp4fragNode.VideoRequest | mp4frag.js:530-574 | Answers as the decision says: 416, 404, or the initialization and pre-buffer. The response joins the waiting set and gets a close listener only when streamed. |
| Node.Mp4fragNode.AnswerVideo | mp4frag.js:533-554 | Writes or replies exactly the decision's events and reports whether the response was streamed. |
| Node.Mp4fragNode.WriteVideoPreBuffer | mp4frag.js:542-554 | Writes the HTTP pre-buffer segments, in order. |
| Node.Mp4fragNode.WriteSegments | mp4frag.js:547-553 | The loop writes every segment from lastIndex on, in order. |
| Node.Mp4fragNode.ResponseClose | mp4frag.js:559-563 | The close listener of a streamed response fires once: the response leaves the waiting set, is ended, and its listener is gone. |
| Node.Mp4fragNode.HandleMsg | mp4frag.js:831-880 | Throws iff `Classify` says so. A reset has exactly the effects of `Reset`. Every other message leaves the responses, the playlist, the registry and the package's segments and initialization as they were. A non-empty buffer is written to the package and nothing else changes. 'start' starts, 'restart' stops and then starts, and other commands stop. |
| Node.Mp4fragNode.RunCommand | mp4frag.js:836-869 | The branches of handleMsg that neither reset nor throw: the chunk written, or the writer's start, restart or stop, with nothing else changed. |
| Node.Mp4fragNode.Close | mp4frag.js:684-698 | Stops writing, ends the waiting responses, empties both subscriber tables, clears the package and deletes the node's registry entry. |

## Left out

- The `mp4frag` package itself: parsing of boxes, the segment window, the m3u8 playlist, codec and mime detection. The package is an abstract state. Its `write` only records the chunk; its events are methods the environment calls (`OnInitialized`, `OnSegment`, `OnError`, `OnReset`).
- The hls.m3u8 route, the JSON status route with its replacer, cache headers, and the splicing of the express router stack: HTTP plumbing with no decision logic beyond the 404s.
- The socket.io server and namespace setup, the middleware, the `auth` handshake and its 5-second disconnect timer, and the 'mime' and 'initialization' socket requests: network plumbing and timers.
- `randomBytes` for the socket.io key is a foreign call. The key is a parameter of `CreateNode`.
- Node-RED `status`, `warn`, `error` and i18n text, and `updateDisplayedStatus`: UI calls with no effect on the node's state.
- The `mp4frag_not_found` branches: they are reachable only after `destroy`, and the model has no method after `Close`.
- lib/initController.js (browser bootstrap) and ui_mp4frag.js (dashboard widget registration) are not part of this model.
- Floating point: JavaScript numbers are integers here, so NaN from non-numeric values is `None`, and -0, fractions and rounding to a double are not modelled. Durations are `real`.
- Node.Mp4fragNode.Close: connected sockets are not disconnected, since sockets are opaque identifiers. Listener removal is modelled by not running the reset listener during the final `resetCache`.
- Node.Mp4fragNode.VideoRequest: requires a response identifier not already in the waiting set, because every HTTP request brings a new response object.
- Node.Mp4fragNode.SocketSegmentRequest: requires that socket.io is served, because the handler exists only then.
- Node.Mp4fragNode.ResponseClose: requires a pending close listener, because only a streamed response gets one and `once` fires it a single time.
- A primitive other than null as the `data` of a socket 'segment' request is modelled as `{}`: the handler reads only `timestamp` and `all`, which are undefined on it.
- Subscribers.NonStringRangeAccepted: requires that the header value is not an array, because Node's HTTP parser gives the Range header as a string or leaves it undefined.
- Node.Mp4fragNode.OnError: the error report and the red status are not modelled.
- Node.Mp4fragNode.CallWriter and Node.FirstSegmentListener: the restart inside the continuous writer and the autostart call startWriting through `StartResolved` on arguments already in range. `Writing.RestartArgumentsUnchanged` and `Node.AutoStartArgumentsResolved` prove this equals startWriting on those numbers.
- Node.Mp4fragNode.OnSegment: takes the set of connected sockets and the time as parameters. The clock does not move within one event.

## Findings

| source | as written | input that shows it | evidently intended | confidence | as-written member | corrected member |
|---|---|---|---|---|---|---|
| mp4frag.js:345-350 | The parameter default `data = {}` applies only to undefined, so a socket 'segment' request whose data is null reaches `typeof data.timestamp` and throws a TypeError. | `socket.emit('segment', null)` | Null data is answered as a request without data, as the default suggests | not executed | Subscribers.SegmentRequestAsWrittenThrowsOnNull | Subscribers.SegmentRequestCorrectsOnlyTheThrow |
| mp4frag.js:350-357 | A socket 'segment' request with a numeric `timestamp` reads `segmentObject.timestamp`, but `segmentObject` is null before the first segment and after a reset, so the handler throws a TypeError. | `socket.emit('segment', {timestamp: 0})` before any segment has arrived | The socket waits for the next segment (registered with `false`), as when the latest segment is not newer | not executed | Subscribers.SegmentRequestAsWrittenThrows | Subscribers.SegmentRequestCorrectsOnlyTheThrow |
