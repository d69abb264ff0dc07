/** The node's two subscriber tables and the requests that fill them:
    `ioSocketWaitingForSegments`, a Map from socket.io socket to its "all"
    flag (mp4frag.js:166-178, 345-391), and `resWaitingForSegments`, the Set
    of HTTP responses streaming `/video.mp4` (mp4frag.js:180-188, 212-219,
    530-574). The functions here state what a segment, a join request or a
    video request does to them; Node.Mp4fragNode performs the same steps in
    place and is proved to agree. */
module Subscribers {
  import opened Wrappers
  import opened JsValues
  import opened ParseInt
  import opened OrderedMap
  import opened SegmentIndex
  import opened Messages
  import opened Cache
  import Writing

  /** A socket.io socket and an HTTP response, by identity */
  type SocketId = nat
  type ResponseId = nat

  /** What the node emits on a socket: a segment object as the package
      reports it, or the burst a joining client gets */
  datatype SocketEvent =
    | SegmentData(o: SegmentObject)
    | SegmentBurst(segment: seq<byte>, duration: real, timestamp: int, sequence: int)

  /** What the node does to an HTTP response */
  datatype HttpEvent =
    | WriteBytes(res: ResponseId, bytes: seq<byte>)
    | EndResponse(res: ResponseId)
    | Reply(res: ResponseId, status: nat)

  /* ---------------- a segment reaches the sockets ---------------- */

  /** The sockets of the map a segment is emitted to: the connected ones, in
      the map's order (mp4frag.js:166-168) */
  function Receivers(m: seq<(SocketId, bool)>, connected: set<SocketId>): seq<SocketId> {
    if m == [] then []
    else
      var e := m[|m| - 1];
      Receivers(m[..|m| - 1], connected) + (if e.0 in connected then [e.0] else [])
  }

  /** The map after a segment (mp4frag.js:166-176): a connected socket
      flagged true stays; one flagged false has had its single segment and
      goes; a disconnected one goes without it. */
  function KeptAfterSegment(m: seq<(SocketId, bool)>, connected: set<SocketId>): seq<(SocketId, bool)> {
    if m == [] then []
    else
      var e := m[|m| - 1];
      KeptAfterSegment(m[..|m| - 1], connected) + (if e.0 in connected && e.1 then [e] else [])
  }

  lemma {:induction false} ReceiversMembership(m: seq<(SocketId, bool)>, connected: set<SocketId>, s: SocketId)
    ensures s in Receivers(m, connected) <==> s in connected && HasKey(m, s)
  {
    if m != [] {
      var p := m[..|m| - 1];
      ReceiversMembership(p, connected, s);
      if HasKey(m, s) && !HasKey(p, s) {
        assert m[|m| - 1].0 == s;
      }
      if HasKey(p, s) {
        var i :| 0 <= i < |p| && p[i].0 == s;
        assert m[i].0 == s;
      }
    }
  }

  lemma {:induction false} KeptMembership(m: seq<(SocketId, bool)>, connected: set<SocketId>, e: (SocketId, bool))
    ensures e in KeptAfterSegment(m, connected) <==> e in m && e.0 in connected && e.1
  {
    if m != [] {
      var p := m[..|m| - 1];
      KeptMembership(p, connected, e);
      assert m == p + [m[|m| - 1]];
    }
  }

  /** A segment keeps the map free of repeated sockets. */
  lemma {:induction false} KeptDistinct(m: seq<(SocketId, bool)>, connected: set<SocketId>)
    requires DistinctKeys(m)
    ensures DistinctKeys(KeptAfterSegment(m, connected))
  {
    if m != [] {
      var p := m[..|m| - 1];
      var e := m[|m| - 1];
      KeptDistinct(p, connected);
      var k := KeptAfterSegment(p, connected);
      forall i | 0 <= i < |k|
        ensures k[i].0 != e.0
      {
        KeptMembership(p, connected, k[i]);
        var j :| 0 <= j < |p| && p[j] == k[i];
        assert m[j] == p[j];
      }
    }
  }

  /** Which sockets the segment handler sends to and which stay, stated on
      one socket: the reach and the map after are exactly as the
      handler's three cases say. */
  lemma SegmentFanOut(m: seq<(SocketId, bool)>, connected: set<SocketId>, s: SocketId, all: bool)
    requires DistinctKeys(m) && (s, all) in m
    ensures s in Receivers(m, connected) <==> s in connected
    ensures HasKey(KeptAfterSegment(m, connected), s) <==> s in connected && all
  {
    var i :| 0 <= i < |m| && m[i] == (s, all);
    ReceiversMembership(m, connected, s);
    var k := KeptAfterSegment(m, connected);
    KeptMembership(m, connected, (s, all));
    if HasKey(k, s) {
      var j :| 0 <= j < |k| && k[j].0 == s;
      KeptMembership(m, connected, k[j]);
      var i2 :| 0 <= i2 < |m| && m[i2] == k[j];
      assert i2 == i;
    }
  }

  /** The keys of the kept entries of a prefix are keys of that prefix. */
  lemma KeptKeysFromPrefix(m: seq<(SocketId, bool)>, connected: set<SocketId>, s: SocketId)
    requires HasKey(KeptAfterSegment(m, connected), s)
    ensures HasKey(m, s)
  {
    var k := KeptAfterSegment(m, connected);
    var j :| 0 <= j < |k| && k[j].0 == s;
    KeptMembership(m, connected, k[j]);
    var i :| 0 <= i < |m| && m[i] == k[j];
  }

  /* ---------------- a segment reaches the HTTP responses ---------------- */

  /** The writes a segment makes (mp4frag.js:180-188): its bytes to every
      waiting response that has not ended, in the set's order */
  function SegmentWrites(responses: seq<ResponseId>, ended: set<ResponseId>, bytes: seq<byte>): seq<HttpEvent> {
    if responses == [] then []
    else
      var r := responses[|responses| - 1];
      SegmentWrites(responses[..|responses| - 1], ended, bytes) + (if r !in ended then [WriteBytes(r, bytes)] else [])
  }

  /** The ends a reset makes (mp4frag.js:212-219): every waiting response
      that has not ended is ended */
  function ResetEnds(responses: seq<ResponseId>, ended: set<ResponseId>): seq<HttpEvent> {
    if responses == [] then []
    else
      var r := responses[|responses| - 1];
      ResetEnds(responses[..|responses| - 1], ended) + (if r !in ended then [EndResponse(r)] else [])
  }

  lemma {:induction false} SegmentWritesMembership(responses: seq<ResponseId>, ended: set<ResponseId>, bytes: seq<byte>, e: HttpEvent)
    ensures e in SegmentWrites(responses, ended, bytes) <==>
              e.WriteBytes? && e.res in responses && e.res !in ended && e.bytes == bytes
  {
    if responses != [] {
      var p := responses[..|responses| - 1];
      SegmentWritesMembership(p, ended, bytes, e);
      assert responses == p + [responses[|responses| - 1]];
    }
  }

  lemma {:induction false} ResetEndsMembership(responses: seq<ResponseId>, ended: set<ResponseId>, e: HttpEvent)
    ensures e in ResetEnds(responses, ended) <==> e.EndResponse? && e.res in responses && e.res !in ended
  {
    if responses != [] {
      var p := responses[..|responses| - 1];
      ResetEndsMembership(p, ended, e);
      assert responses == p + [responses[|responses| - 1]];
    }
  }

  /* ---------------- a socket asks for segments ---------------- */

  /** The `data` of a socket's 'segment' request. The parameter default
      `data = {}` (mp4frag.js:345) replaces only an undefined argument, so a
      request without data is `SegmentRequestData(Undefined, Undefined)`,
      and so is a primitive other than null, whose fields are undefined;
      `null` stays null. */
  datatype SegmentRequestData =
    | NullData
    | SegmentRequestData(timestamp: JsValue, all: JsValue)

  /** What the request handler does: throw, or emit a reply to the socket
      and (re)register the socket in the map with a flag */
  datatype SocketOutcome =
    | Threw
    | Handled(reply: Option<SocketEvent>, register: Option<bool>)

  /** A request with a numeric timestamp against the latest segment `o`
      (mp4frag.js:350-357): a newer segment is sent at once and the map is
      left alone; otherwise the socket waits for the next segment only. */
  function TimestampReply(o: SegmentObject, requested: int): SocketOutcome {
    if o.timestamp > requested then Handled(Some(SegmentData(o)), None) else Handled(None, Some(false))
  }

  /** A request without a timestamp (mp4frag.js:359-385): the segments from
      the last eligible one on, concatenated, with their summed duration and
      the package's latest sequence and timestamp; the socket then stays for
      all further segments unless `all` is `false`. With nothing to send the
      socket is registered with the flag `all !== false`. */
  function JoinReply(objs: seq<SegmentObject>, allKeyframes: bool, sequence: int, timestamp: int, all: JsValue): SocketOutcome {
    var lastIndex := LastIndex(objs, allKeyframes, 1);
    LastIndexSpec(objs, allKeyframes, 1);
    if lastIndex > -1 then
      var run := objs[lastIndex..];
      Handled(Some(SegmentBurst(Concat(run), TotalDuration(run), timestamp, sequence)),
              if all != Bool(false) then Some(true) else None)
    else
      Handled(None, Some(all != Bool(false)))
  }

  /** The request handler as written: `typeof data.timestamp` throws a
      TypeError when `data` is null, and with a numeric timestamp it reads
      `segmentObject.timestamp`, which throws while the package holds no
      segment (`segmentObject` is null). */
  function SegmentRequestAsWritten(latest: Option<SegmentObject>, objs: seq<SegmentObject>, allKeyframes: bool,
                                   sequence: int, timestamp: int, data: SegmentRequestData): SocketOutcome
  {
    if data.NullData? then Threw
    else if data.timestamp.Number? then
      match latest
      case None => Threw
      case Some(o) => TimestampReply(o, data.timestamp.n)
    else JoinReply(objs, allKeyframes, sequence, timestamp, data.all)
  }

  /** The request handler with both throws handled: null data is read as
      the `{}` the parameter default gives a request without data, and with
      no latest segment there is no segment newer than the requested
      timestamp, so the socket waits for the next one, as it does when the
      latest segment is not newer. */
  function SegmentRequest(latest: Option<SegmentObject>, objs: seq<SegmentObject>, allKeyframes: bool,
                          sequence: int, timestamp: int, data: SegmentRequestData): (r: SocketOutcome)
    ensures r.Handled?
  {
    if data.NullData? then JoinReply(objs, allKeyframes, sequence, timestamp, Undefined)
    else if data.timestamp.Number? then
      match latest
      case None => Handled(None, Some(false))
      case Some(o) => TimestampReply(o, data.timestamp.n)
    else JoinReply(objs, allKeyframes, sequence, timestamp, data.all)
  }

  /** The handler as written throws on a client that asks with a timestamp
      before the first segment, or after a reset. */
  lemma SegmentRequestAsWrittenThrows(objs: seq<SegmentObject>, allKeyframes: bool, sequence: int, timestamp: int, t: int, all: JsValue)
    ensures SegmentRequestAsWritten(None, objs, allKeyframes, sequence, timestamp, SegmentRequestData(Number(t), all)) == Threw
  {
  }

  /** The handler as written throws on a client that sends null, whatever
      the package holds. */
  lemma SegmentRequestAsWrittenThrowsOnNull(latest: Option<SegmentObject>, objs: seq<SegmentObject>, allKeyframes: bool,
                                            sequence: int, timestamp: int)
    ensures SegmentRequestAsWritten(latest, objs, allKeyframes, sequence, timestamp, NullData) == Threw
  {
  }

  /** The corrected handler agrees with the handler as written wherever that
      one does not throw, and throws nowhere: null data is answered as a
      request without data, and a timestamp with no latest segment waits
      for the next segment. */
  lemma SegmentRequestCorrectsOnlyTheThrow(latest: Option<SegmentObject>, objs: seq<SegmentObject>, allKeyframes: bool,
                                           sequence: int, timestamp: int, data: SegmentRequestData)
    ensures var asWritten := SegmentRequestAsWritten(latest, objs, allKeyframes, sequence, timestamp, data);
            var corrected := SegmentRequest(latest, objs, allKeyframes, sequence, timestamp, data);
            && (asWritten.Handled? ==> corrected == asWritten)
            && (asWritten.Threw? <==> data.NullData? || (data.timestamp.Number? && latest.None?))
            && (data.NullData? ==>
                  corrected == SegmentRequestAsWritten(latest, objs, allKeyframes, sequence, timestamp, SegmentRequestData(Undefined, Undefined)))
            && (asWritten.Threw? && !data.NullData? ==> corrected == Handled(None, Some(false)))
  {
  }

  /** A timestamped request either gets the latest segment at once, when it
      is newer than the requested timestamp, or waits for the next segment
      only; never both. */
  lemma TimestampRequestPlan(o: SegmentObject, objs: seq<SegmentObject>, allKeyframes: bool,
                             sequence: int, timestamp: int, t: int, all: JsValue)
    ensures var r := SegmentRequest(Some(o), objs, allKeyframes, sequence, timestamp, SegmentRequestData(Number(t), all));
            && (r.reply.Some? <==> o.timestamp > t)
            && (r.reply.Some? ==> r.reply.value == SegmentData(o) && r.register.None?)
            && (r.reply.None? ==> r.register == Some(false))
  {
  }

  /** A join request starts the client at the last eligible segment: when
      some segment is eligible the burst holds exactly the segments from
      the last eligible one on, and the client stays for the rest unless
      `all` is false; otherwise nothing is sent and the client is
      registered with `all !== false`. */
  lemma JoinRequestPlan(objs: seq<SegmentObject>, allKeyframes: bool, sequence: int, timestamp: int, all: JsValue)
    ensures var r := JoinReply(objs, allKeyframes, sequence, timestamp, all);
            && r.Handled?
            && (r.reply.Some? <==> CountEligible(objs, allKeyframes) > 0)
            && (r.reply.Some? ==>
                  exists i :: 0 <= i < |objs| && Eligible(objs[i], allKeyframes)
                              && CountEligible(objs[i..], allKeyframes) == 1
                              && r.reply.value == SegmentBurst(Concat(objs[i..]), TotalDuration(objs[i..]), timestamp, sequence)
                              && r.register == (if all == Bool(false) then None else Some(true)))
            && (r.reply.None? ==> r.register == Some(all != Bool(false)))
  {
    LastIndexSpec(objs, allKeyframes, 1);
    var i := LastIndex(objs, allKeyframes, 1);
    if i > -1 {
      assert Min(1, CountEligible(objs, allKeyframes)) == 1;
    }
  }

  /** The map after a handled request */
  function Register(m: seq<(SocketId, bool)>, s: SocketId, outcome: SocketOutcome): seq<(SocketId, bool)> {
    if outcome.Handled? && outcome.register.Some? then Set(m, s, outcome.register.value) else m
  }

  /* ---------------- a client asks for /video.mp4 ---------------- */

  predicate AllDigits(s: string) {
    forall i :: 0 <= i < |s| ==> IsDecimalDigit(s[i])
  }

  /** `/^bytes=\d+-\d+$/` (mp4frag.js:533), computed: "bytes=", a run of
      digits, '-', and digits to the end */
  predicate IsByteRange(s: string) {
    && |s| >= 6 && s[..6] == "bytes="
    && var t := s[6..];
       var k := DigitPrefixLength(t, 10);
       && 0 < k < |t| - 1 && t[k] == '-'
       && DigitPrefixLength(t[k + 1..], 10) == |t| - k - 1
  }

  /** The computed test accepts exactly the strings the pattern describes. */
  lemma ByteRangeMeansPattern(s: string)
    ensures IsByteRange(s) <==>
              exists a: string, b: string :: a != [] && b != [] && AllDigits(a) && AllDigits(b) && s == "bytes=" + a + "-" + b
  {
    if IsByteRange(s) {
      var t := s[6..];
      var k := DigitPrefixLength(t, 10);
      var a, b := t[..k], t[k + 1..];
      assert s == "bytes=" + a + "-" + b;
      assert AllDigits(a) && AllDigits(b) by {
        forall i | 0 <= i < |b| ensures IsDecimalDigit(b[i]) {
          assert IsRadixDigit(b[i], 10);
        }
      }
    }
    if exists a: string, b: string :: a != [] && b != [] && AllDigits(a) && AllDigits(b) && s == "bytes=" + a + "-" + b {
      var a: string, b: string :| a != [] && b != [] && AllDigits(a) && AllDigits(b) && s == "bytes=" + a + "-" + b;
      ByteRangeOfParts(a, b);
    }
  }

  lemma ByteRangeOfParts(a: string, b: string)
    requires a != [] && b != [] && AllDigits(a) && AllDigits(b)
    ensures IsByteRange("bytes=" + a + "-" + b)
  {
    var s := "bytes=" + a + "-" + b;
    var t := a + ("-" + b);
    assert s[..6] == "bytes=" && s[6..] == t;
    assert forall i :: 0 <= i < |a| ==> IsRadixDigit(a[i], 10);
    assert !IsRadixDigit(("-" + b)[0], 10);
    DigitPrefixStops(a, "-" + b, 10);
    assert t[|a| + 1..] == b;
    DigitPrefixOfDigits(b);
  }

  /** Every explicit single range is refused with 416 */
  lemma ExplicitRangeRefused(a: nat, b: nat)
    ensures IsByteRange("bytes=" + Decimal(a) + "-" + Decimal(b))
  {
    ByteRangeOfParts(Decimal(a), Decimal(b));
  }

  /** A header value that is not a string, a missing Range header
      (undefined) among them, becomes a string that is no range: none of
      them starts with "bytes=". Node's HTTP parser gives the Range header
      as a string or leaves it undefined, never as an array (an array would
      be tested as the join of its elements). */
  lemma NonStringRangeAccepted(range: JsValue)
    requires !range.Str? && !range.Array?
    ensures !IsByteRange(ToString(range))
  {
    var s := ToString(range);
    match range {
      case Number(n) =>
        if n >= 0 {
          NaturalToStringStartsWithDigit(n);
        } else {
          assert s == "-" + NaturalToString(-n);
        }
      case _ =>
    }
    NoBytesPrefix(s);
  }

  lemma NoBytesPrefix(s: string)
    requires s != [] && s[0] != 'b'
    ensures !IsByteRange(s)
  {
    if |s| >= 6 {
      assert s[..6][0] == s[0];
    }
  }

  /** Number::toString of a non-negative integer starts with a digit. */
  lemma NaturalToStringStartsWithDigit(n: nat)
    ensures |NaturalToString(n)| > 0 && IsDecimalDigit(NaturalToString(n)[0])
  {
    var d := Decimal(n);
    if n >= ExponentThreshold {
      var digits := StripTrailingZeros(d);
      assert digits[0] == d[0];
    }
  }

  /** An open-ended range, "bytes=" and digits with nothing after the '-',
      does not match the pattern and gets the stream. */
  lemma OpenRangeAccepted(a: string)
    requires AllDigits(a)
    ensures !IsByteRange("bytes=" + a + "-")
  {
    var s := "bytes=" + a + "-";
    assert s[6..] == a + "-";
    assert forall i :: 0 <= i < |a| ==> IsRadixDigit(a[i], 10);
    DigitPrefixStops(a, "-", 10);
  }

  /** What the `/video.mp4` route answers (mp4frag.js:530-574) */
  datatype VideoDecision =
    | RangeNotSatisfiable
    | InitializationNotFound
    | Stream(writes: seq<seq<byte>>)

  /** The bytes of each segment of `s`, in order */
  function Segments(s: seq<SegmentObject>): (r: seq<seq<byte>>)
    ensures |r| == |s|
    ensures forall i :: 0 <= i < |s| ==> r[i] == s[i].segment
  {
    if s == [] then [] else Segments(s[..|s| - 1]) + [s[|s| - 1].segment]
  }

  /** The pre-buffer of the `/video.mp4` stream: the segments from the index
      of the last `preBuffer` eligible ones on */
  function VideoPreBuffer(objs: seq<SegmentObject>, allKeyframes: bool, preBuffer: int): seq<seq<byte>> {
    if preBuffer > 0 then
      var lastIndex := LastIndex(objs, allKeyframes, preBuffer);
      LastIndexSpec(objs, allKeyframes, preBuffer);
      if lastIndex > -1 then Segments(objs[lastIndex..]) else []
    else []
  }

  /** The route's decision: a single explicit byte range is refused with 416,
      a missing initialization gives 404, and otherwise the response is sent
      the initialization and the pre-buffer of `getInt(0, 5, 1,
      req.query.preBuffer)` segments and then joins the waiting set. */
  function VideoRequest(range: JsValue, preBuffer: JsValue, c: CacheView): VideoDecision {
    if IsByteRange(ToString(range)) then RangeNotSatisfiable
    else
      match c.initialization
      case None => InitializationNotFound
      case Some(init) => Stream([init] + VideoPreBuffer(c.segmentObjects, c.allKeyframes, GetInt(0, 5, 1, preBuffer)))
  }

  /** The route's decision on every input: 416 exactly for a single
      explicit byte range; otherwise 404 exactly when the package holds no
      initialization; otherwise the initialization and then the segments
      from the index getSegmentObjectLastIndex finds for the clamped
      pre-buffer on, or the initialization alone when that index is -1. */
  lemma VideoRequestDecision(range: JsValue, preBuffer: JsValue, c: CacheView)
    ensures var d := VideoRequest(range, preBuffer, c);
            var pb := GetInt(0, 5, 1, preBuffer);
            && (d.RangeNotSatisfiable? <==> IsByteRange(ToString(range)))
            && (d.InitializationNotFound? <==> !IsByteRange(ToString(range)) && c.initialization.None?)
            && 0 <= pb <= 5
            && (d.Stream? ==>
                  exists r :: LastIndexMeets(c.segmentObjects, c.allKeyframes, pb, r)
                              && d.writes == [c.initialization.value] + (if r == -1 then [] else Segments(c.segmentObjects[r..])))
  {
    var pb := GetInt(0, 5, 1, preBuffer);
    LastIndexSpec(c.segmentObjects, c.allKeyframes, pb);
  }

  /** The HTTP status of a refusal */
  function Status(d: VideoDecision): nat
    requires !d.Stream?
  {
    if d.RangeNotSatisfiable? then 416 else 404
  }

  /** A `/video.mp4` client and a writer started with the same pre-buffer get
      the same bytes: the initialization first, then the same segments. */
  lemma VideoMatchesWriterPreBuffer(range: JsValue, preBuffer: JsValue, c: CacheView, topics: Topics)
    requires !IsByteRange(ToString(range)) && c.initialization.Some?
    ensures var d := VideoRequest(range, preBuffer, c);
            var msgs := Writing.PreBuffer(topics, c, GetInt(0, 5, 1, preBuffer));
            && d.Stream? && d.writes[0] == c.initialization.value
            && |d.writes| == 1 + |msgs|
            && forall i :: 0 <= i < |msgs| ==> d.writes[i + 1] == msgs[i].payload
  {
    PreBuffersAgree(c, topics, GetInt(0, 5, 1, preBuffer));
  }

  lemma PreBuffersAgree(c: CacheView, topics: Topics, preBuffer: int)
    ensures var writes := VideoPreBuffer(c.segmentObjects, c.allKeyframes, preBuffer);
            var msgs := Writing.PreBuffer(topics, c, preBuffer);
            && |writes| == |msgs|
            && forall i :: 0 <= i < |msgs| ==> writes[i] == msgs[i].payload
  {
  }
}
