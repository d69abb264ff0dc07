/** The Node-RED node `mp4frag` (class Mp4fragNode, mp4frag.js:30-899): its
    settings, its state, and its handlers for input messages, for the
    package's events, for socket.io requests and for `/video.mp4`. Every
    handler is a method on the node's fields, proved against the functions
    of Writing, Subscribers and Dispatch. The clock, the set of connected
    sockets and the identities of sockets and responses are parameters. */
module Node {
  import opened Wrappers
  import opened JsValues
  import opened ParseInt
  import opened OrderedMap
  import opened SegmentIndex
  import opened Messages
  import opened Cache
  import opened Writing
  import opened Subscribers
  import opened Registry
  import opened Dispatch

  /** The node's editor configuration; every field but the base path is
      read as a JavaScript value. */
  datatype NodeConfig = NodeConfig(
    basePath: string,
    serveHttp: JsValue,
    serveIo: JsValue,
    hlsPlaylistSize: JsValue,
    hlsPlaylistExtra: JsValue,
    autoStart: JsValue,
    repeated: JsValue,
    timeLimit: JsValue,
    preBuffer: JsValue,
    statusData: JsValue)

  datatype StatusData = PlaylistOnly | AllStatus

  /** The settings the constructor derives from the configuration */
  datatype NodeSettings = NodeSettings(
    serveHttp: bool,
    serveIo: bool,
    hlsPlaylistSize: int,
    hlsPlaylistExtra: int,
    autoStart: bool,
    repeated: bool,
    timeLimit: int,
    preBuffer: int,
    statusData: StatusData)

  /** The constructor's base path: the node id when the configuration says
      'id' (mp4frag.js:34) */
  function BasePathOf(id: string, config: NodeConfig): string {
    if config.basePath == "id" then id else config.basePath
  }

  /** mp4frag.js:36-56: the flags compare with the strings 'false' and
      'true', the numbers go through getInt, and socket.io is served only
      when the module is installed (`ioAvailable`). */
  function SettingsOf(config: NodeConfig, ioAvailable: bool): (s: NodeSettings)
    ensures 2 <= s.hlsPlaylistSize <= 20 && 0 <= s.hlsPlaylistExtra <= 10
    ensures -1 <= s.timeLimit <= MaxSafeInteger && 0 <= s.preBuffer <= 5
    ensures s.serveHttp <==> config.serveHttp != Str("false")
    ensures s.serveIo <==> ioAvailable && config.serveIo != Str("false")
    ensures s.autoStart <==> config.autoStart == Str("true")
    ensures s.repeated <==> config.repeated == Str("true")
    ensures s.statusData == AllStatus <==> config.statusData == Str("all")
  {
    NodeSettings(
      config.serveHttp != Str("false"),
      ioAvailable && config.serveIo != Str("false"),
      GetInt(2, 20, 4, config.hlsPlaylistSize),
      GetInt(0, 10, 0, config.hlsPlaylistExtra),
      config.autoStart == Str("true"),
      config.repeated == Str("true"),
      GetInt(-1, MaxSafeInteger, 10, config.timeLimit),
      GetInt(0, 5, 1, config.preBuffer),
      if config.statusData == Str("all") then AllStatus else PlaylistOnly)
  }

  predicate ValidSettings(s: NodeSettings) {
    2 <= s.hlsPlaylistSize <= 20 && 0 <= s.hlsPlaylistExtra <= 10 && -1 <= s.timeLimit <= MaxSafeInteger && 0 <= s.preBuffer <= 5
  }

  /** The fallbacks startWriting uses */
  function DefaultsOf(s: NodeSettings): (d: WriteDefaults)
    ensures ValidSettings(s) ==> ValidDefaults(d)
  {
    WriteDefaults(s.timeLimit, s.preBuffer, s.repeated)
  }

  /** createMp4frag's configuration of the package (mp4frag.js:117-119) */
  function Mp4FragConfigOf(s: NodeSettings): (c: Mp4FragConfig)
    ensures c.HlsConfig? <==> s.serveHttp
    ensures c.CountConfig? ==> c.segmentCount == s.hlsPlaylistSize + s.hlsPlaylistExtra
  {
    if s.serveHttp then HlsConfig("hls", s.hlsPlaylistSize, s.hlsPlaylistExtra, true)
    else CountConfig(s.hlsPlaylistSize + s.hlsPlaylistExtra)
  }

  /** The playlist the first segment announces (mp4frag.js:136-142): the
      HTTP paths when HTTP is served (mp4frag.js:523-525) and the socket.io
      client when socket.io is (mp4frag.js:263, 271-277); `ioKey` is the
      random key. */
  function PlaylistOf(s: NodeSettings, httpNodeRoot: string, basePath: string, ioKey: string): Playlist {
    Playlist(
      if s.serveHttp then Some(httpNodeRoot + "mp4frag/" + basePath + "/hls.m3u8") else None,
      if s.serveHttp then Some(httpNodeRoot + "mp4frag/" + basePath + "/video.mp4") else None,
      if s.serveIo then Some(SocketIoClient(httpNodeRoot + "mp4frag/socket.io", "/" + basePath, ioKey)) else None)
  }

  /** One once-listener the 'initialized' handler prepends to 'segment'
      (mp4frag.js:134-152): it announces the playlist when anything is
      served, and starts writing with no pre-buffer when autoStart is set.
      The listener calls startWriting(0, timeLimit, repeated); those
      arguments are already in range, and `AutoStartArgumentsResolved`
      proves that resolving them leaves them as they are, so the start is
      taken from `StartResolved`. */
  function FirstSegmentListener(w: WriterState, c: CacheView, topics: Topics, s: NodeSettings, pl: Playlist, now: int): (WriterState, seq<Message>) {
    var announce := if s.serveHttp || s.serveIo then [Status(topics.status, PlaylistStatus(pl))] else [];
    if s.autoStart then
      var started := StartResolved(w, c, topics, WriteArgs(0, s.timeLimit, s.repeated), now);
      (started.0, announce + started.1)
    else (w, announce)
  }

  /** `k` pending once-listeners, fired in turn */
  function FirstSegmentListeners(k: nat, w: WriterState, c: CacheView, topics: Topics, s: NodeSettings, pl: Playlist, now: int): (WriterState, seq<Message>) {
    if k == 0 then (w, [])
    else
      var before := FirstSegmentListeners(k - 1, w, c, topics, s, pl, now);
      var last := FirstSegmentListener(before.0, c, topics, s, pl, now);
      (last.0, before.1 + last.1)
  }

  /** The status message of a segment (mp4frag.js:194-199) */
  function SegmentStatusMessages(s: NodeSettings, topics: Topics, o: SegmentObject, totalDuration: real, totalByteLength: int): seq<Message> {
    if s.statusData == AllStatus then
      [Status(topics.status, SegmentStatus(o.sequence, o.duration, |o.segment|, o.keyframe, totalDuration, totalByteLength))]
    else []
  }

  /** The events a socket log records for one event sent to several sockets */
  function Emits(sockets: seq<SocketId>, e: SocketEvent): (r: seq<(SocketId, SocketEvent)>)
    ensures |r| == |sockets|
    ensures forall i :: 0 <= i < |sockets| ==> r[i] == (sockets[i], e)
  {
    if sockets == [] then [] else Emits(sockets[..|sockets| - 1], e) + [(sockets[|sockets| - 1], e)]
  }

  /** The writes of `chunks` to the response `res`, in order */
  function ChunkWrites(res: ResponseId, chunks: seq<seq<byte>>): (r: seq<HttpEvent>)
    ensures |r| == |chunks|
    ensures forall i :: 0 <= i < |chunks| ==> r[i] == WriteBytes(res, chunks[i])
  {
    if chunks == [] then [] else ChunkWrites(res, chunks[..|chunks| - 1]) + [WriteBytes(res, chunks[|chunks| - 1])]
  }

  /** What a `/video.mp4` response receives for a decision */
  function VideoEvents(res: ResponseId, d: VideoDecision): (r: seq<HttpEvent>)
    ensures d.Stream? ==> r == ChunkWrites(res, d.writes)
    ensures d.RangeNotSatisfiable? ==> r == [Reply(res, 416)]
    ensures d.InitializationNotFound? ==> r == [Reply(res, 404)]
  {
    match d
    case RangeNotSatisfiable => [Reply(res, 416)]
    case InitializationNotFound => [Reply(res, 404)]
    case Stream(writes) => ChunkWrites(res, writes)
  }

  function Elements<T>(s: seq<T>): set<T> {
    set x | x in s
  }

  class Mp4fragNode {
    const id: string
    const basePath: string
    const settings: NodeSettings
    const topics: Topics
    /** the value `this.playlist` takes on the first segment */
    const playlistValue: Playlist
    /** `Mp4fragNode.basePathMap`, shared by every node */
    const registry: BasePathRegistry
    const mp4frag: Mp4Frag

    /** `this.playlist`; the empty string is None */
    var playlist: Option<Playlist>
    var writing: bool
    var writeMode: Option<WriteMode>
    var endTime: Option<int>
    var mp4fragWriter: Option<Writer>
    /** `ioSocketWaitingForSegments` */
    var sockets: seq<(SocketId, bool)>
    /** `resWaitingForSegments` */
    var responses: seq<ResponseId>
    /** the responses that have ended */
    var ended: set<ResponseId>
    /** the streamed responses whose once('close') listener has not fired */
    var closeListeners: set<ResponseId>
    /** once-listeners on 'segment' not yet fired */
    var firstSegmentListeners: nat
    /** every message sent, in order */
    var sent: seq<Message>
    var socketLog: seq<(SocketId, SocketEvent)>
    var httpLog: seq<HttpEvent>

    function WriterView(): WriterState
      reads this
    {
      WriterState(writing, writeMode, endTime, mp4fragWriter)
    }

    function Defaults(): WriteDefaults {
      DefaultsOf(settings)
    }

    /** The writer is in a valid state and the settings are in range. */
    predicate WriterValid()
      reads this
    {
      ValidSettings(settings) && ValidWriter(WriterView())
    }

    /** The node holds its registry entry, its settings are in range, its
        writer is in a valid state and its tables hold no duplicates; a
        table of a service the node does not offer stays empty. */
    predicate Valid()
      reads this, registry
    {
      && registry.Valid()
      && Get(registry.entries, basePath).Some? && Get(registry.entries, basePath).value.id == id
      && WriterValid()
      && DistinctKeys(sockets) && Distinct(responses)
      && (!settings.serveIo ==> sockets == [])
      && (!settings.serveHttp ==> responses == [])
    }

    constructor (id: string, basePath: string, settings: NodeSettings, topics: Topics, playlistValue: Playlist,
                 registry: BasePathRegistry, mp4frag: Mp4Frag)
      ensures this.id == id && this.basePath == basePath && this.settings == settings && this.topics == topics
      ensures this.playlistValue == playlistValue && this.registry == registry && this.mp4frag == mp4frag
      ensures playlist == None && WriterView() == Stopped
      ensures sockets == [] && responses == [] && ended == {} && closeListeners == {} && firstSegmentListeners == 0
      ensures sent == [] && socketLog == [] && httpLog == []
    {
      this.id := id;
      this.basePath := basePath;
      this.settings := settings;
      this.topics := topics;
      this.playlistValue := playlistValue;
      this.registry := registry;
      this.mp4frag := mp4frag;
      playlist := None;
      writing := false;
      writeMode := None;
      endTime := None;
      mp4fragWriter := None;
      sockets := [];
      responses := [];
      ended := {};
      closeListeners := {};
      firstSegmentListeners := 0;
      sent := [];
      socketLog := [];
      httpLog := [];
    }

    /** startWriting (mp4frag.js:700-797): the arguments resolved against
        the node's settings, then `StartWithArgs` */
    method StartWriting(preBuffer: JsValue, timeLimit: JsValue, repeated: JsValue, now: int)
      requires WriterValid()
      modifies this`writing, this`writeMode, this`endTime, this`mp4fragWriter, this`sent
      ensures WriterValid()
      ensures var r := Writing.StartWriting(old(WriterView()), mp4frag.View(), topics, Defaults(), preBuffer, timeLimit, repeated, now);
              WriterView() == r.0 && sent == old(sent) + r.1
    {
      var a := ResolveArgs(Defaults(), preBuffer, timeLimit, repeated);
      StartWithArgs(a, now);
    }

    /** The body of startWriting once its arguments are resolved
        (mp4frag.js:711-796) */
    method StartWithArgs(a: WriteArgs, now: int)
      requires WriterValid() && -1 <= a.timeLimit <= MaxSafeInteger && 0 <= a.preBuffer <= 5
      modifies this`writing, this`writeMode, this`endTime, this`mp4fragWriter, this`sent
      ensures WriterValid()
      ensures var r := Writing.StartResolved(old(WriterView()), mp4frag.View(), topics, a, now);
              WriterView() == r.0 && sent == old(sent) + r.1
    {
      if mp4frag.initialization.None? {
        return;
      }
      var mode := ModeOf(a.timeLimit, a.repeated);
      if writing {
        if mode == Single && writeMode == Some(Single) {
          endTime := Some(now + a.timeLimit);
        }
        return;
      }
      sent := sent + [InitMessage(topics, mp4frag.initialization.value, mp4frag.duration)];
      SendPreBuffer(a.preBuffer);
      InstallWriter(mode, a, now);
    }

    /** The pre-buffer of startWriting (mp4frag.js:727-745) */
    method SendPreBuffer(preBuffer: int)
      modifies this`sent
      ensures sent == old(sent) + PreBuffer(topics, mp4frag.View(), preBuffer)
    {
      if preBuffer > 0 {
        var lastIndex := mp4frag.GetSegmentObjectLastIndex(preBuffer);
        LastIndexSpec(mp4frag.segmentObjects, mp4frag.allKeyframes, preBuffer);
        if lastIndex > -1 {
          SendSegments(lastIndex);
        }
      }
    }

    /** The pre-buffer loop of startWriting (mp4frag.js:733-742) */
    method SendSegments(lastIndex: int)
      requires 0 <= lastIndex < |mp4frag.segmentObjects|
      modifies this`sent
      ensures sent == old(sent) + SegmentMessages(topics.pre, mp4frag.segmentObjects[lastIndex..])
    {
      var objs := mp4frag.segmentObjects;
      var i := lastIndex;
      while i < |objs|
        invariant lastIndex <= i <= |objs|
        invariant sent == old(sent) + SegmentMessages(topics.pre, objs[lastIndex..i])
      {
        sent := sent + [SegmentMessage(topics.pre, objs[i])];
        assert objs[lastIndex..i + 1][..i - lastIndex] == objs[lastIndex..i];
        i := i + 1;
      }
      assert objs[lastIndex..i] == objs[lastIndex..];
    }

    /** The writer of the mode, installed from a stopped state
        (mp4frag.js:747-796) */
    method InstallWriter(mode: WriteMode, a: WriteArgs, now: int)
      requires !writing && WriterValid()
      requires mode == ModeOf(a.timeLimit, a.repeated) && -1 <= a.timeLimit <= MaxSafeInteger && 0 <= a.preBuffer <= 5
      modifies this`writing, this`writeMode, this`endTime, this`mp4fragWriter
      ensures WriterValid()
      ensures WriterView() == Started(old(WriterView()), mode, a, now)
    {
      match mode {
        case Unlimited =>
          mp4fragWriter := Some(UnlimitedWriter);
        case Single =>
          endTime := Some(now + a.timeLimit);
          mp4fragWriter := Some(SingleWriter);
        case Continuous =>
          mp4fragWriter := Some(ContinuousWriter(now + a.timeLimit, a.preBuffer, a.timeLimit, a.repeated));
      }
      writeMode := Some(mode);
      writing := true;
    }

    /** stopWriting (mp4frag.js:799-817) */
    method StopWriting()
      requires WriterValid()
      modifies this`writing, this`writeMode, this`endTime, this`mp4fragWriter, this`sent
      ensures WriterValid()
      ensures WriterView() == Stop(old(WriterView()), topics).0
      ensures sent == old(sent) + Stop(old(WriterView()), topics).1
    {
      if !writing {
        return;
      }
      writeMode := None;
      mp4fragWriter := None;
      endTime := None;
      sent := sent + [EndMessage(topics)];
      writing := false;
    }

    /** The writer closure on a segment (mp4frag.js:190-192, 753-785) */
    method CallWriter(o: SegmentObject, now: int)
      requires WriterValid() && writing && mp4fragWriter.Some?
      modifies this`writing, this`writeMode, this`endTime, this`mp4fragWriter, this`sent
      ensures WriterValid()
      ensures var r := Deliver(old(WriterView()), mp4frag.View(), topics, Defaults(), o, now);
              WriterView() == r.0 && sent == old(sent) + r.1
    {
      var msg := SegmentMessage(topics.seg, o);
      sent := sent + [msg];
      match mp4fragWriter.value
      case UnlimitedWriter =>
      case SingleWriter =>
        if endTime.Some? && now >= endTime.value {
          StopWriting();
        }
      case ContinuousWriter(e, pb, tl, rep) =>
        if now >= e {
          StopWriting();
          StartWithArgs(WriteArgs(pb, tl, rep), now);
        }
    }

    /** reset (mp4frag.js:678-682): stop writing, then reset the package,
        whose 'reset' event runs OnReset. */
    method Reset()
      requires Valid()
      modifies this`writing, this`writeMode, this`endTime, this`mp4fragWriter, this`sent
      modifies this`httpLog, this`ended, this`playlist, registry
      modifies mp4frag`initialization, mp4frag`segmentObjects, mp4frag`segmentObject
      ensures Valid()
      ensures WriterView() == Stop(old(WriterView()), topics).0
      ensures sent == old(sent) + Stop(old(WriterView()), topics).1
                      + (if old(playlist).Some? then [Status(topics.status, ResetStatus)] else [])
      ensures mp4frag.initialization == None && mp4frag.segmentObjects == [] && mp4frag.segmentObject == None
      ensures httpLog == old(httpLog) + ResetEnds(responses, old(ended))
      ensures ended == old(ended) + Elements(responses)
      ensures playlist == None
      ensures registry.entries == Set(old(registry.entries), basePath, Get(old(registry.entries), basePath).value.(running := false))
    {
      StopWriting();
      mp4frag.ResetCache();
      OnReset();
    }

    /** The package's 'error' event (mp4frag.js:202-210): the same steps as a
        reset; the error report is not part of this model. */
    method OnError()
      requires Valid()
      modifies this`writing, this`writeMode, this`endTime, this`mp4fragWriter, this`sent
      modifies this`httpLog, this`ended, this`playlist, registry
      modifies mp4frag`initialization, mp4frag`segmentObjects, mp4frag`segmentObject
      ensures Valid()
      ensures WriterView() == Stopped
      ensures sent == old(sent) + Stop(old(WriterView()), topics).1
                      + (if old(playlist).Some? then [Status(topics.status, ResetStatus)] else [])
      ensures mp4frag.initialization == None && mp4frag.segmentObjects == [] && mp4frag.segmentObject == None
      ensures httpLog == old(httpLog) + ResetEnds(responses, old(ended))
      ensures ended == old(ended) + Elements(responses)
      ensures playlist == None
      ensures registry.entries == Set(old(registry.entries), basePath, Get(old(registry.entries), basePath).value.(running := false))
    {
      StopWriting();
      mp4frag.ResetCache();
      OnReset();
    }

    /** The package's 'reset' event (mp4frag.js:212-237): every waiting
        response that has not ended is ended, the entry stops running, and a
        playlist that was announced is withdrawn. */
    method OnReset()
      requires Valid()
      modifies this`httpLog, this`ended, this`playlist, this`sent, registry
      ensures Valid()
      ensures httpLog == old(httpLog) + ResetEnds(responses, old(ended))
      ensures ended == old(ended) + Elements(responses)
      ensures playlist == None
      ensures sent == old(sent) + (if old(playlist).Some? then [Status(topics.status, ResetStatus)] else [])
      ensures registry.entries == Set(old(registry.entries), basePath, Get(old(registry.entries), basePath).value.(running := false))
    {
      EndResponses();
      registry.SetRunning(basePath, false);
      if playlist.Some? {
        playlist := None;
        sent := sent + [Status(topics.status, ResetStatus)];
      }
    }

    /** Ending every waiting response that has not ended
        (mp4frag.js:213-219, 644-652) */
    method EndResponses()
      requires Distinct(responses)
      modifies this`httpLog, this`ended
      ensures httpLog == old(httpLog) + ResetEnds(responses, old(ended))
      ensures ended == old(ended) + Elements(responses)
    {
      var i := 0;
      while i < |responses|
        invariant 0 <= i <= |responses|
        invariant httpLog == old(httpLog) + ResetEnds(responses[..i], old(ended))
        invariant ended == old(ended) + Elements(responses[..i])
      {
        var res := responses[i];
        EndStep(responses, i, old(ended));
        if res !in ended {
          assert old(httpLog) + (ResetEnds(responses[..i], old(ended)) + [EndResponse(res)]) == old(httpLog) + ResetEnds(responses[..i], old(ended)) + [EndResponse(res)];
          httpLog := httpLog + [EndResponse(res)];
        }
        ended := ended + {res};
        i := i + 1;
      }
      assert responses[..i] == responses;
    }

    /** The package's 'initialized' event (mp4frag.js:123-133): the status
        when all statuses are sent, the entry starts running, and a
        once-listener waits for the first segment. */
    method OnInitialized(mime: string, videoCodec: string, audioCodec: string)
      requires Valid()
      modifies this`sent, this`firstSegmentListeners, registry
      ensures Valid()
      ensures sent == old(sent) + (if settings.statusData == AllStatus then [Status(topics.status, InitializedStatus(mime, videoCodec, audioCodec))] else [])
      ensures registry.entries == Set(old(registry.entries), basePath, Get(old(registry.entries), basePath).value.(running := true))
      ensures firstSegmentListeners == old(firstSegmentListeners) + 1
    {
      if settings.statusData == AllStatus {
        sent := sent + [Status(topics.status, InitializedStatus(mime, videoCodec, audioCodec))];
      }
      registry.SetRunning(basePath, true);
      firstSegmentListeners := firstSegmentListeners + 1;
    }

    /** The pending once-listeners fire on a segment, before the node's own
        listener (prependOnceListener). */
    method FireFirstSegmentListeners(now: int)
      requires WriterValid()
      modifies this`writing, this`writeMode, this`endTime, this`mp4fragWriter, this`sent
      modifies this`playlist, this`firstSegmentListeners
      ensures WriterValid()
      ensures var r := FirstSegmentListeners(old(firstSegmentListeners), old(WriterView()), mp4frag.View(), topics, settings, playlistValue, now);
              WriterView() == r.0 && sent == old(sent) + r.1
      ensures playlist == if old(firstSegmentListeners) > 0 && (settings.serveHttp || settings.serveIo) then Some(playlistValue) else old(playlist)
      ensures firstSegmentListeners == 0
    {
      var k := firstSegmentListeners;
      firstSegmentListeners := 0;
      var j := 0;
      while j < k
        invariant 0 <= j <= k
        invariant WriterValid()
        invariant var r := FirstSegmentListeners(j, old(WriterView()), mp4frag.View(), topics, settings, playlistValue, now);
                  WriterView() == r.0 && sent == old(sent) + r.1
        invariant playlist == if j > 0 && (settings.serveHttp || settings.serveIo) then Some(playlistValue) else old(playlist)
        invariant firstSegmentListeners == 0
      {
        ghost var before := FirstSegmentListeners(j, old(WriterView()), mp4frag.View(), topics, settings, playlistValue, now);
        ghost var last := FirstSegmentListener(before.0, mp4frag.View(), topics, settings, playlistValue, now);
        assert old(sent) + (before.1 + last.1) == old(sent) + before.1 + last.1;
        FirstSegment(now);
        j := j + 1;
      }
    }

    /** One once-listener of the first segment (mp4frag.js:134-152) */
    method FirstSegment(now: int)
      requires WriterValid()
      modifies this`writing, this`writeMode, this`endTime, this`mp4fragWriter, this`sent, this`playlist
      ensures WriterValid()
      ensures var r := FirstSegmentListener(old(WriterView()), mp4frag.View(), topics, settings, playlistValue, now);
              WriterView() == r.0 && sent == old(sent) + r.1
      ensures playlist == if settings.serveHttp || settings.serveIo then Some(playlistValue) else old(playlist)
    {
      ghost var announce := if settings.serveHttp || settings.serveIo then [Status(topics.status, PlaylistStatus(playlistValue))] else [];
      if settings.serveHttp || settings.serveIo {
        playlist := Some(playlistValue);
        sent := sent + [Status(topics.status, PlaylistStatus(playlistValue))];
      } else {
        assert sent == old(sent) + announce;
      }
      if settings.autoStart {
        ghost var started := StartResolved(old(WriterView()), mp4frag.View(), topics, WriteArgs(0, settings.timeLimit, settings.repeated), now);
        assert old(sent) + (announce + started.1) == old(sent) + announce + started.1;
        StartWithArgs(WriteArgs(0, settings.timeLimit, settings.repeated), now);
      }
    }

    /** The socket loop of the segment handler (mp4frag.js:165-178) */
    method NotifySockets(o: SegmentObject, connected: set<SocketId>)
      requires DistinctKeys(sockets)
      modifies this`sockets, this`socketLog
      ensures DistinctKeys(sockets) && (old(sockets) == [] ==> sockets == [])
      ensures sockets == KeptAfterSegment(old(sockets), connected)
      ensures socketLog == old(socketLog) + Emits(Receivers(old(sockets), connected), SegmentData(o))
    {
      sockets, socketLog := WalkSockets(sockets, connected, SegmentData(o), socketLog);
    }

    /** The response loop of the segment handler (mp4frag.js:180-188) */
    method WriteResponses(bytes: seq<byte>)
      modifies this`httpLog
      ensures httpLog == old(httpLog) + SegmentWrites(responses, ended, bytes)
    {
      var i := 0;
      while i < |responses|
        invariant 0 <= i <= |responses|
        invariant httpLog == old(httpLog) + SegmentWrites(responses[..i], ended, bytes)
      {
        var res := responses[i];
        WriteStep(responses, i, ended, bytes);
        if res !in ended {
          assert old(httpLog) + (SegmentWrites(responses[..i], ended, bytes) + [WriteBytes(res, bytes)]) == old(httpLog) + SegmentWrites(responses[..i], ended, bytes) + [WriteBytes(res, bytes)];
          httpLog := httpLog + [WriteBytes(res, bytes)];
        }
        i := i + 1;
      }
      assert responses[..i] == responses;
    }

    /** The package's 'segment' event with the segment `o`: the pending
        once-listeners (mp4frag.js:134-152), then the node's own listener. */
    method OnSegment(o: SegmentObject, connected: set<SocketId>, now: int)
      requires Valid()
      modifies this`writing, this`writeMode, this`endTime, this`mp4fragWriter, this`sent
      modifies this`playlist, this`firstSegmentListeners, this`sockets, this`socketLog, this`httpLog
      ensures Valid()
      ensures var first := FirstSegmentListeners(old(firstSegmentListeners), old(WriterView()), mp4frag.View(), topics, settings, playlistValue, now);
              var delivered := if first.0.writing && first.0.writer.Some?
                               then Deliver(first.0, mp4frag.View(), topics, Defaults(), o, now) else (first.0, []);
              && WriterView() == delivered.0
              && sent == old(sent) + first.1 + delivered.1
                         + SegmentStatusMessages(settings, topics, o, mp4frag.totalDuration, mp4frag.totalByteLength)
      ensures playlist == if old(firstSegmentListeners) > 0 && (settings.serveHttp || settings.serveIo) then Some(playlistValue) else old(playlist)
      ensures firstSegmentListeners == 0
      ensures sockets == KeptAfterSegment(old(sockets), connected)
      ensures socketLog == old(socketLog) + Emits(Receivers(old(sockets), connected), SegmentData(o))
      ensures httpLog == old(httpLog) + SegmentWrites(responses, ended, o.segment)
    {
      FireFirstSegmentListeners(now);
      SegmentListener(o, connected, now);
    }

    /** The node's own 'segment' listener (mp4frag.js:155-200): the sockets,
        the responses, the writer and the status, in that order. */
    method SegmentListener(o: SegmentObject, connected: set<SocketId>, now: int)
      requires WriterValid() && DistinctKeys(sockets)
      modifies this`writing, this`writeMode, this`endTime, this`mp4fragWriter, this`sent
      modifies this`sockets, this`socketLog, this`httpLog
      ensures WriterValid() && DistinctKeys(sockets) && (old(sockets) == [] ==> sockets == [])
      ensures var delivered := if old(writing) && old(mp4fragWriter).Some?
                               then Deliver(old(WriterView()), mp4frag.View(), topics, Defaults(), o, now) else (old(WriterView()), []);
              && WriterView() == delivered.0
              && sent == old(sent) + delivered.1 + SegmentStatusMessages(settings, topics, o, mp4frag.totalDuration, mp4frag.totalByteLength)
      ensures sockets == KeptAfterSegment(old(sockets), connected)
      ensures socketLog == old(socketLog) + Emits(Receivers(old(sockets), connected), SegmentData(o))
      ensures httpLog == old(httpLog) + SegmentWrites(responses, ended, o.segment)
    {
      NotifySockets(o, connected);
      WriteResponses(o.segment);
      if writing && mp4fragWriter.Some? {
        CallWriter(o, now);
      } else {
        assert sent == old(sent) + [];
      }
      if settings.statusData == AllStatus {
        sent := sent + [Status(topics.status, SegmentStatus(o.sequence, o.duration, |o.segment|, o.keyframe, mp4frag.totalDuration, mp4frag.totalByteLength))];
      } else {
        assert sent == sent + [];
      }
    }

    /** A socket's 'segment' request (mp4frag.js:345-386), with null data
        and a missing latest segment handled as the corrected
        Subscribers.SegmentRequest does */
    method SocketSegmentRequest(socket: SocketId, data: SegmentRequestData)
      requires Valid() && settings.serveIo
      modifies this`sockets, this`socketLog
      ensures Valid()
      ensures var out := SegmentRequest(mp4frag.segmentObject, mp4frag.segmentObjects, mp4frag.allKeyframes,
                                        mp4frag.sequence, mp4frag.timestamp, data);
              && sockets == Register(old(sockets), socket, out)
              && socketLog == old(socketLog) + (if out.reply.Some? then [(socket, out.reply.value)] else [])
    {
      if data.NullData? {
        JoinRequest(socket, Undefined);
      } else if data.timestamp.Number? {
        TimestampRequest(socket, data.timestamp.n);
      } else {
        JoinRequest(socket, data.all);
      }
    }

    /** A request with a numeric timestamp (mp4frag.js:350-357) */
    method TimestampRequest(socket: SocketId, requested: int)
      requires DistinctKeys(sockets)
      modifies this`sockets, this`socketLog
      ensures DistinctKeys(sockets)
      ensures var out := match mp4frag.segmentObject
                         case None => Handled(None, Some(false))
                         case Some(o) => TimestampReply(o, requested);
              && sockets == Register(old(sockets), socket, out)
              && socketLog == old(socketLog) + (if out.reply.Some? then [(socket, out.reply.value)] else [])
    {
      match mp4frag.segmentObject {
        case None =>
          sockets := Set(sockets, socket, false);
        case Some(o) =>
          if o.timestamp > requested {
            socketLog := socketLog + [(socket, SegmentData(o))];
          } else {
            sockets := Set(sockets, socket, false);
          }
      }
    }

    /** A request without a timestamp (mp4frag.js:359-385) */
    method JoinRequest(socket: SocketId, all: JsValue)
      requires DistinctKeys(sockets)
      modifies this`sockets, this`socketLog
      ensures DistinctKeys(sockets)
      ensures var out := JoinReply(mp4frag.segmentObjects, mp4frag.allKeyframes, mp4frag.sequence, mp4frag.timestamp, all);
              && sockets == Register(old(sockets), socket, out)
              && socketLog == old(socketLog) + (if out.reply.Some? then [(socket, out.reply.value)] else [])
    {
      var lastIndex := mp4frag.GetSegmentObjectLastIndex(1);
      if lastIndex > -1 {
        var segment, duration := JoinBurst(lastIndex);
        socketLog := socketLog + [(socket, SegmentBurst(segment, duration, mp4frag.timestamp, mp4frag.sequence))];
        if all != Bool(false) {
          sockets := Set(sockets, socket, true);
        }
      } else {
        sockets := Set(sockets, socket, all != Bool(false));
      }
    }

    /** The burst loop of a join request (mp4frag.js:362-375): the segments
        from `lastIndex` on, concatenated, and their summed duration */
    method JoinBurst(lastIndex: int) returns (segment: seq<byte>, duration: real)
      requires 0 <= lastIndex < |mp4frag.segmentObjects|
      ensures segment == Concat(mp4frag.segmentObjects[lastIndex..])
      ensures duration == TotalDuration(mp4frag.segmentObjects[lastIndex..])
    {
      var objs := mp4frag.segmentObjects;
      segment := [];
      duration := 0.0;
      var i := lastIndex;
      while i < |objs|
        invariant lastIndex <= i <= |objs|
        invariant segment == Concat(objs[lastIndex..i])
        invariant duration == TotalDuration(objs[lastIndex..i])
      {
        ConcatSnoc(objs[lastIndex..i + 1]);
        assert objs[lastIndex..i + 1][..i - lastIndex] == objs[lastIndex..i];
        segment := segment + objs[i].segment;
        duration := duration + objs[i].duration;
        i := i + 1;
      }
      assert objs[lastIndex..i] == objs[lastIndex..];
    }

    /** A socket's 'disconnect' (mp4frag.js:389-391) */
    method SocketDisconnect(socket: SocketId)
      requires Valid()
      modifies this`sockets
      ensures Valid()
      ensures sockets == Delete(old(sockets), socket)
    {
      sockets := Delete(sockets, socket);
    }

    /** A GET of `/video.mp4` answered on the new response `res`
        (mp4frag.js:530-574): a streamed response joins the waiting set and
        gets a once('close') listener. */
    method VideoRequest(res: ResponseId, range: JsValue, preBuffer: JsValue)
      requires Valid() && settings.serveHttp && res !in responses && res !in closeListeners
      modifies this`httpLog, this`responses, this`closeListeners
      ensures Valid()
      ensures var d := Subscribers.VideoRequest(range, preBuffer, mp4frag.View());
              && httpLog == old(httpLog) + VideoEvents(res, d)
              && responses == (if d.Stream? then old(responses) + [res] else old(responses))
              && closeListeners == if d.Stream? then old(closeListeners) + {res} else old(closeListeners)
    {
      var streamed := AnswerVideo(res, range, preBuffer);
      if streamed {
        AddKeepsDistinct(responses, res);
        responses := Add(responses, res);
        closeListeners := closeListeners + {res};
      }
    }

    /** What the route writes to `res` (mp4frag.js:533-554) */
    method AnswerVideo(res: ResponseId, range: JsValue, preBuffer: JsValue) returns (streamed: bool)
      modifies this`httpLog
      ensures var d := Subscribers.VideoRequest(range, preBuffer, mp4frag.View());
              && httpLog == old(httpLog) + VideoEvents(res, d)
              && (streamed <==> d.Stream?)
    {
      if IsByteRange(ToString(range)) {
        httpLog := httpLog + [Reply(res, 416)];
        return false;
      }
      if mp4frag.initialization.None? {
        httpLog := httpLog + [Reply(res, 404)];
        return false;
      }
      var init := mp4frag.initialization.value;
      httpLog := httpLog + [WriteBytes(res, init)];
      var pb := GetInt(0, 5, 1, preBuffer);
      ghost var rest := VideoPreBuffer(mp4frag.segmentObjects, mp4frag.allKeyframes, pb);
      WriteVideoPreBuffer(res, pb);
      StreamEvents(res, init, rest, old(httpLog), httpLog);
      return true;
    }

    /** The pre-buffer of a `/video.mp4` response (mp4frag.js:542-554) */
    method WriteVideoPreBuffer(res: ResponseId, preBuffer: int)
      modifies this`httpLog
      ensures httpLog == old(httpLog) + ChunkWrites(res, VideoPreBuffer(mp4frag.segmentObjects, mp4frag.allKeyframes, preBuffer))
    {
      if preBuffer > 0 {
        var lastIndex := mp4frag.GetSegmentObjectLastIndex(preBuffer);
        LastIndexSpec(mp4frag.segmentObjects, mp4frag.allKeyframes, preBuffer);
        if lastIndex > -1 {
          WriteSegments(res, lastIndex);
        }
      }
    }

    /** The pre-buffer loop of a `/video.mp4` response (mp4frag.js:547-553) */
    method WriteSegments(res: ResponseId, lastIndex: int)
      requires 0 <= lastIndex < |mp4frag.segmentObjects|
      modifies this`httpLog
      ensures httpLog == old(httpLog) + ChunkWrites(res, Segments(mp4frag.segmentObjects[lastIndex..]))
    {
      var objs := mp4frag.segmentObjects;
      ghost var chunks := Segments(objs[lastIndex..]);
      var i := lastIndex;
      while i < |objs|
        invariant lastIndex <= i <= |objs|
        invariant httpLog == old(httpLog) + ChunkWrites(res, chunks[..i - lastIndex])
      {
        assert chunks[i - lastIndex] == objs[i].segment;
        assert chunks[..i - lastIndex + 1][..i - lastIndex] == chunks[..i - lastIndex];
        httpLog := httpLog + [WriteBytes(res, objs[i].segment)];
        i := i + 1;
      }
      assert chunks[..i - lastIndex] == chunks;
    }

    /** A response's 'close' (mp4frag.js:559-563), which only a streamed
        response listens for, once: it leaves the set, if the set still
        exists, and is ended. */
    method ResponseClose(res: ResponseId)
      requires Valid() && res in closeListeners
      modifies this`responses, this`httpLog, this`ended, this`closeListeners
      ensures Valid()
      ensures responses == Remove(old(responses), res)
      ensures httpLog == old(httpLog) + [EndResponse(res)]
      ensures ended == old(ended) + {res}
      ensures closeListeners == old(closeListeners) - {res}
    {
      RemoveKeepsDistinct(responses, res);
      responses := Remove(responses, res);
      httpLog := httpLog + [EndResponse(res)];
      ended := ended + {res};
      closeListeners := closeListeners - {res};
    }

    /** handleMsg (mp4frag.js:831-880); `threw` when the message cannot be
        destructured */
    method HandleMsg(payload: Payload, action: Action, now: int) returns (threw: bool)
      requires Valid()
      modifies this`writing, this`writeMode, this`endTime, this`mp4fragWriter, this`sent
      modifies this`httpLog, this`ended, this`playlist, registry
      modifies mp4frag`initialization, mp4frag`segmentObjects, mp4frag`segmentObject, mp4frag`written
      ensures Valid()
      ensures threw <==> Classify(payload, action) == Fails
      ensures Classify(payload, action).WriteChunk? ==> mp4frag.written == old(mp4frag.written) + [Classify(payload, action).bytes]
      ensures !Classify(payload, action).WriteChunk? ==> mp4frag.written == old(mp4frag.written)
      ensures Classify(payload, action).Reset? ==>
                && WriterView() == Stop(old(WriterView()), topics).0
                && sent == old(sent) + Stop(old(WriterView()), topics).1
                           + (if old(playlist).Some? then [Status(topics.status, ResetStatus)] else [])
                && mp4frag.initialization == None && mp4frag.segmentObjects == [] && mp4frag.segmentObject == None
                && httpLog == old(httpLog) + ResetEnds(responses, old(ended))
                && ended == old(ended) + Elements(responses)
                && playlist == None
                && registry.entries == Set(old(registry.entries), basePath, Get(old(registry.entries), basePath).value.(running := false))
      ensures !Classify(payload, action).Reset? ==>
                && httpLog == old(httpLog) && ended == old(ended) && playlist == old(playlist)
                && registry.entries == old(registry.entries)
                && mp4frag.initialization == old(mp4frag.initialization)
                && mp4frag.segmentObjects == old(mp4frag.segmentObjects)
                && mp4frag.segmentObject == old(mp4frag.segmentObject)
      ensures Classify(payload, action).StartCmd? ==>
                var c := Classify(payload, action);
                var r := Writing.StartWriting(old(WriterView()), mp4frag.View(), topics, Defaults(), c.preBuffer, c.timeLimit, c.repeated, now);
                WriterView() == r.0 && sent == old(sent) + r.1
      ensures Classify(payload, action).RestartCmd? ==>
                var c := Classify(payload, action);
                var stopped := Stop(old(WriterView()), topics);
                var r := Writing.StartWriting(stopped.0, mp4frag.View(), topics, Defaults(), c.preBuffer, c.timeLimit, c.repeated, now);
                WriterView() == r.0 && sent == old(sent) + stopped.1 + r.1
      ensures Classify(payload, action) == StopCmd ==>
                WriterView() == Stop(old(WriterView()), topics).0 && sent == old(sent) + Stop(old(WriterView()), topics).1
      ensures Classify(payload, action) in {NoCommand, Fails} || Classify(payload, action).WriteChunk? ==>
                WriterView() == old(WriterView()) && sent == old(sent)
    {
      threw := false;
      var command := Classify(payload, action);
      if command.Reset? {
        Reset();
      } else if command == Fails {
        threw := true;
      } else {
        RunCommand(command, now);
      }
    }

    /** The branches of handleMsg that neither reset nor throw: they touch
        only the package's input, the writer and the messages sent. */
    method RunCommand(command: Command, now: int)
      requires WriterValid() && !command.Reset? && command != Fails
      modifies this`writing, this`writeMode, this`endTime, this`mp4fragWriter, this`sent, mp4frag`written
      ensures WriterValid()
      ensures command.WriteChunk? ==> mp4frag.written == old(mp4frag.written) + [command.bytes]
      ensures !command.WriteChunk? ==> mp4frag.written == old(mp4frag.written)
      ensures command.StartCmd? ==>
                var r := Writing.StartWriting(old(WriterView()), mp4frag.View(), topics, Defaults(), command.preBuffer, command.timeLimit, command.repeated, now);
                WriterView() == r.0 && sent == old(sent) + r.1
      ensures command.RestartCmd? ==>
                var stopped := Stop(old(WriterView()), topics);
                var r := Writing.StartWriting(stopped.0, mp4frag.View(), topics, Defaults(), command.preBuffer, command.timeLimit, command.repeated, now);
                WriterView() == r.0 && sent == old(sent) + stopped.1 + r.1
      ensures command == StopCmd ==>
                WriterView() == Stop(old(WriterView()), topics).0 && sent == old(sent) + Stop(old(WriterView()), topics).1
      ensures command == NoCommand || command.WriteChunk? ==> WriterView() == old(WriterView()) && sent == old(sent)
    {
      match command
      case WriteChunk(bytes) =>
        mp4frag.Write(bytes);
      case StartCmd(preBuffer, timeLimit, repeated) =>
        StartWriting(preBuffer, timeLimit, repeated, now);
      case RestartCmd(preBuffer, timeLimit, repeated) =>
        StopWriting();
        StartWriting(preBuffer, timeLimit, repeated, now);
      case StopCmd =>
        StopWriting();
      case NoCommand =>
    }

    /** destroy (mp4frag.js:684-698), run when the node closes: writing
        stops, the waiting responses are ended and the tables emptied, the
        package is reset with its listeners already removed, and the base
        path is released. */
    method Close()
      requires Valid()
      modifies this`writing, this`writeMode, this`endTime, this`mp4fragWriter, this`sent
      modifies this`httpLog, this`ended, this`responses, this`sockets, registry
      modifies mp4frag`initialization, mp4frag`segmentObjects, mp4frag`segmentObject
      ensures WriterView() == Stopped
      ensures sent == old(sent) + Stop(old(WriterView()), topics).1
      ensures httpLog == old(httpLog) + ResetEnds(old(responses), old(ended))
      ensures ended == old(ended) + Elements(old(responses))
      ensures responses == [] && sockets == []
      ensures mp4frag.initialization == None && mp4frag.segmentObjects == [] && mp4frag.segmentObject == None
      ensures registry.Valid() && registry.entries == Delete(old(registry.entries), basePath)
    {
      StopWriting();
      if settings.serveHttp && |responses| > 0 {
        EndResponses();
        responses := [];
      } else {
        assert Elements(responses) == {} && httpLog == old(httpLog) + [];
      }
      if settings.serveIo {
        sockets := [];
      }
      mp4frag.ResetCache();
      registry.DestroyPaths(basePath);
    }
  }

  /** One step of the reset's walk over the waiting responses: the
      response at `i` has not been visited before. */
  lemma EndStep(responses: seq<ResponseId>, i: nat, ended: set<ResponseId>)
    requires Distinct(responses) && i < |responses|
    ensures responses[i] !in ended ==> ResetEnds(responses[..i + 1], ended) == ResetEnds(responses[..i], ended) + [EndResponse(responses[i])]
    ensures responses[i] in ended ==> ResetEnds(responses[..i + 1], ended) == ResetEnds(responses[..i], ended)
    ensures Elements(responses[..i + 1]) == Elements(responses[..i]) + {responses[i]}
    ensures responses[i] !in Elements(responses[..i])
  {
    var p := responses[..i];
    assert responses[..i + 1][..i] == p;
    assert responses[..i + 1] == p + [responses[i]];
    assert ResetEnds(p, ended) + [] == ResetEnds(p, ended);
    forall k | 0 <= k < i
      ensures p[k] != responses[i]
    {
      assert p[k] == responses[k];
    }
  }

  /** One step of the segment's walk over the waiting responses */
  lemma WriteStep(responses: seq<ResponseId>, i: nat, ended: set<ResponseId>, bytes: seq<byte>)
    requires i < |responses|
    ensures responses[i] !in ended ==>
              SegmentWrites(responses[..i + 1], ended, bytes) == SegmentWrites(responses[..i], ended, bytes) + [WriteBytes(responses[i], bytes)]
    ensures responses[i] in ended ==> SegmentWrites(responses[..i + 1], ended, bytes) == SegmentWrites(responses[..i], ended, bytes)
  {
    var p := responses[..i];
    assert responses[..i + 1][..i] == p;
    assert SegmentWrites(p, ended, bytes) + [] == SegmentWrites(p, ended, bytes);
  }

  /** One step of the socket walk: the entry at `i` is kept when its socket
      is connected and wants every segment, and is sent to when connected. */
  lemma NotifyStep(entries: seq<(SocketId, bool)>, i: nat, connected: set<SocketId>, e: SocketEvent)
    requires i < |entries|
    ensures var kept := KeptAfterSegment(entries[..i], connected);
            if entries[i].0 in connected && entries[i].1
            then KeptAfterSegment(entries[..i + 1], connected) + entries[i + 1..] == kept + entries[i..]
            else KeptAfterSegment(entries[..i + 1], connected) == kept
    ensures var sent := Emits(Receivers(entries[..i], connected), e);
            if entries[i].0 in connected
            then Emits(Receivers(entries[..i + 1], connected), e) == sent + [(entries[i].0, e)]
            else Emits(Receivers(entries[..i + 1], connected), e) == sent
  {
    assert entries[..i + 1][..i] == entries[..i];
    var kept := KeptAfterSegment(entries[..i], connected);
    var r := Receivers(entries[..i], connected);
    if entries[i].0 in connected {
      assert (r + [entries[i].0])[..|r|] == r;
    } else {
      assert r + [] == r;
    }
    if entries[i].0 in connected && entries[i].1 {
      assert entries[i..] == [entries[i]] + entries[i + 1..];
      assert kept + entries[i..] == (kept + [entries[i]]) + entries[i + 1..];
    } else {
      assert kept + [] == kept;
    }
  }

  /** The initialization write followed by the pre-buffer writes are the
      events of the stream of both. */
  lemma StreamEvents(res: ResponseId, init: seq<byte>, rest: seq<seq<byte>>, before: seq<HttpEvent>, after: seq<HttpEvent>)
    requires after == before + [WriteBytes(res, init)] + ChunkWrites(res, rest)
    ensures after == before + VideoEvents(res, Stream([init] + rest))
  {
    var x := WriteBytes(res, init);
    ChunkWritesAppend(res, [init], rest);
    assert [init][..0] == [];
    assert ChunkWrites(res, [init]) == [x];
    assert before + ([x] + ChunkWrites(res, rest)) == before + [x] + ChunkWrites(res, rest);
  }

  /** The writes of two runs of chunks are the writes of the first, then
      those of the second. */
  lemma {:induction false} ChunkWritesAppend(res: ResponseId, a: seq<seq<byte>>, b: seq<seq<byte>>)
    ensures ChunkWrites(res, a + b) == ChunkWrites(res, a) + ChunkWrites(res, b)
  {
    if b == [] {
      assert a + b == a;
    } else {
      var c := b[..|b| - 1];
      ChunkWritesAppend(res, a, c);
      assert (a + b)[..|a + b| - 1] == a + c;
    }
  }

  /** Partway through the walk the map still has no repeated socket. */
  lemma KeptRestDistinct(entries: seq<(SocketId, bool)>, i: nat, connected: set<SocketId>)
    requires DistinctKeys(entries) && i <= |entries|
    ensures DistinctKeys(KeptAfterSegment(entries[..i], connected) + entries[i..])
  {
    var kept := KeptAfterSegment(entries[..i], connected);
    var m := kept + entries[i..];
    KeptDistinct(entries[..i], connected);
    forall a, b | 0 <= a < b < |m|
      ensures m[a].0 != m[b].0
    {
      if a < |kept| && b >= |kept| {
        KeptKeysFromPrefix(entries[..i], connected, kept[a].0);
        var k :| 0 <= k < i && entries[..i][k].0 == kept[a].0;
        assert entries[k].0 == m[a].0 && entries[i + (b - |kept|)] == m[b];
      } else if a >= |kept| {
        assert m[a] == entries[i + (a - |kept|)] && m[b] == entries[i + (b - |kept|)];
      }
    }
  }

  /** The segment handler's walk over the socket map (mp4frag.js:165-178),
      on the map `entries` and the log `log` it extends: it deletes from the
      map while it walks it, and a JavaScript Map walk visits each remaining
      entry once. */
  method WalkSockets(entries: seq<(SocketId, bool)>, connected: set<SocketId>, e: SocketEvent,
                     log: seq<(SocketId, SocketEvent)>)
    returns (table: seq<(SocketId, bool)>, log': seq<(SocketId, SocketEvent)>)
    requires DistinctKeys(entries)
    ensures DistinctKeys(table) && (entries == [] ==> table == [])
    ensures table == KeptAfterSegment(entries, connected)
    ensures log' == log + Emits(Receivers(entries, connected), e)
  {
    table, log' := entries, log;
    var i := 0;
    NotifyStart(entries, connected, e, log);
    while i < |entries|
      invariant 0 <= i <= |entries|
      invariant table == KeptAfterSegment(entries[..i], connected) + entries[i..]
      invariant log' == log + Emits(Receivers(entries[..i], connected), e)
    {
      NotifyAdvance(entries, i, connected, e, table, log, log');
      table, log' := SegmentToSocket(entries[i].0, entries[i].1, connected, e, table, log');
      i := i + 1;
    }
    NotifyEnd(entries, connected, e, log);
  }

  /** The body of the segment handler's `forEach` over the socket map
      (mp4frag.js:166-177), for the entry `socket` -> `all`: a connected
      socket is sent the segment, and leaves the map unless it asked for
      all of them; a disconnected one just leaves. */
  method SegmentToSocket(socket: SocketId, all: bool, connected: set<SocketId>, e: SocketEvent,
                         table: seq<(SocketId, bool)>, log: seq<(SocketId, SocketEvent)>)
    returns (table': seq<(SocketId, bool)>, log': seq<(SocketId, SocketEvent)>)
    requires DistinctKeys(table)
    ensures log' == if socket in connected then log + [(socket, e)] else log
    ensures table' == if socket in connected && all then table else Delete(table, socket)
  {
    table', log' := table, log;
    if socket in connected {
      log' := log + [(socket, e)];
      if !all {
        table' := Delete(table, socket);
      }
    } else {
      table' := Delete(table, socket);
    }
  }

  /** Before the socket walk: nothing visited, nothing sent. */
  lemma NotifyStart(entries: seq<(SocketId, bool)>, connected: set<SocketId>, e: SocketEvent, log: seq<(SocketId, SocketEvent)>)
    ensures entries == KeptAfterSegment(entries[..0], connected) + entries[0..]
    ensures log == log + Emits(Receivers(entries[..0], connected), e)
  {
    assert entries[..0] == [];
    assert log + [] == log;
  }

  /** After the socket walk: everything visited, and the kept entries are
      still free of repeated sockets. */
  lemma NotifyEnd(entries: seq<(SocketId, bool)>, connected: set<SocketId>, e: SocketEvent, log: seq<(SocketId, SocketEvent)>)
    requires DistinctKeys(entries)
    ensures KeptAfterSegment(entries[..|entries|], connected) + entries[|entries|..] == KeptAfterSegment(entries, connected)
    ensures log + Emits(Receivers(entries[..|entries|], connected), e) == log + Emits(Receivers(entries, connected), e)
    ensures DistinctKeys(KeptAfterSegment(entries, connected))
    ensures entries == [] ==> KeptAfterSegment(entries, connected) == []
  {
    assert entries[..|entries|] == entries;
    KeptDistinct(entries, connected);
  }

  /** The whole of one step of the socket walk, stated on the table `cur`
      and the log `log` the walk has built so far. */
  lemma NotifyAdvance(entries: seq<(SocketId, bool)>, i: nat, connected: set<SocketId>, e: SocketEvent,
                      cur: seq<(SocketId, bool)>, base: seq<(SocketId, SocketEvent)>, log: seq<(SocketId, SocketEvent)>)
    requires DistinctKeys(entries) && i < |entries|
    requires cur == KeptAfterSegment(entries[..i], connected) + entries[i..]
    requires log == base + Emits(Receivers(entries[..i], connected), e)
    ensures DistinctKeys(cur)
    ensures entries[i].0 in connected && entries[i].1 ==>
              cur == KeptAfterSegment(entries[..i + 1], connected) + entries[i + 1..]
    ensures !(entries[i].0 in connected && entries[i].1) ==>
              Delete(cur, entries[i].0) == KeptAfterSegment(entries[..i + 1], connected) + entries[i + 1..]
    ensures entries[i].0 in connected ==> log + [(entries[i].0, e)] == base + Emits(Receivers(entries[..i + 1], connected), e)
    ensures entries[i].0 !in connected ==> log == base + Emits(Receivers(entries[..i + 1], connected), e)
  {
    NotifyStep(entries, i, connected, e);
    KeptRestDistinct(entries, i, connected);
    if !(entries[i].0 in connected && entries[i].1) {
      DeleteCurrent(entries, i, connected);
    }
    if entries[i].0 in connected {
      assert base + (Emits(Receivers(entries[..i], connected), e) + [(entries[i].0, e)]) == base + Emits(Receivers(entries[..i], connected), e) + [(entries[i].0, e)];
    }
  }

  /** Deleting the socket the walk is at, after the visited prefix has been
      filtered, removes exactly that entry. */
  lemma DeleteCurrent(entries: seq<(SocketId, bool)>, i: nat, connected: set<SocketId>)
    requires DistinctKeys(entries) && i < |entries|
    requires DistinctKeys(KeptAfterSegment(entries[..i], connected) + entries[i..])
    ensures var kept := KeptAfterSegment(entries[..i], connected);
            Delete(kept + entries[i..], entries[i].0) == kept + entries[i + 1..]
  {
    var kept := KeptAfterSegment(entries[..i], connected);
    forall j | 0 <= j < |kept|
      ensures kept[j].0 != entries[i].0
    {
      KeptKeysFromPrefix(entries[..i], connected, kept[j].0);
      var k :| 0 <= k < i && entries[..i][k].0 == kept[j].0;
      assert entries[k].0 == kept[j].0;
    }
    KeptRestDistinct(entries, i, connected);
    DeleteVisited(kept, entries[i..]);
    assert entries[i..][1..] == entries[i + 1..];
  }

  /** Concat of a run extended by one segment (the burst loop's step) */
  lemma {:induction false} ConcatSnoc(s: seq<SegmentObject>)
    requires s != []
    ensures Concat(s) == Concat(s[..|s| - 1]) + s[|s| - 1].segment
    ensures TotalDuration(s) == TotalDuration(s[..|s| - 1]) + s[|s| - 1].duration
  {
    if |s| > 1 {
      ConcatSnoc(s[1..]);
      assert s[1..][..|s| - 2] == s[..|s| - 1][1..];
    }
  }

  /** The node's constructor (mp4frag.js:31-79) up to its services: the
      settings, the base path registration, which may fail, the package and
      the registry's service flags. */
  method CreateNode(registry: BasePathRegistry, id: string, config: NodeConfig, ioAvailable: bool,
                    httpNodeRoot: string, ioKey: string) returns (r: Result<Mp4fragNode, PathError>)
    requires registry.Valid()
    modifies registry
    ensures registry.Valid()
    ensures var bp := BasePathOf(id, config);
            var outcome := CreatePathsOutcome(old(registry.entries), id, bp);
            && (r.Failure? <==> outcome.Failure?)
            && (r.Failure? ==> r.error == outcome.error && registry.entries == old(registry.entries))
    ensures r.Success? ==>
              var bp := BasePathOf(id, config);
              var s := SettingsOf(config, ioAvailable);
              && fresh(r.value) && fresh(r.value.mp4frag)
              && r.value.Valid() && r.value.registry == registry
              && r.value.basePath == bp && r.value.settings == s && r.value.topics == TopicsFor(bp)
              && r.value.mp4frag.config == Mp4FragConfigOf(s)
              && r.value.playlistValue == PlaylistOf(s, httpNodeRoot, bp, ioKey)
              && r.value.WriterView() == Stopped && r.value.sent == []
              && registry.entries == Set(old(registry.entries), bp, Item(id, false, s.serveHttp, s.serveIo))
  {
    var bp := BasePathOf(id, config);
    var s := SettingsOf(config, ioAvailable);
    var topics := registry.CreatePaths(id, bp);
    if topics.Failure? {
      return Failure(topics.error);
    }
    ghost var registered := registry.entries;
    var mp4frag := new Mp4Frag(Mp4FragConfigOf(s));
    registry.SetServing(bp, s.serveHttp, s.serveIo);
    SetTwice(old(registry.entries), bp, Item(id, false, false, false), Item(id, false, s.serveHttp, s.serveIo));
    var node := new Mp4fragNode(id, bp, s, topics.value, PlaylistOf(s, httpNodeRoot, bp, ioKey), registry, mp4frag);
    r := Success(node);
  }

  /* ---------------- properties of the node ---------------- */

  /** The node's settings are always in range. */
  lemma SettingsInRange(config: NodeConfig, ioAvailable: bool)
    ensures ValidSettings(SettingsOf(config, ioAvailable))
    ensures ValidDefaults(DefaultsOf(SettingsOf(config, ioAvailable)))
  {
  }

  /** With autoStart, the first segment after an initialization leaves the
      node writing, whatever it was doing. */
  lemma {:induction false} AutoStartWrites(k: nat, w: WriterState, c: CacheView, topics: Topics, s: NodeSettings, pl: Playlist, now: int)
    requires s.autoStart && c.initialization.Some? && k > 0
    requires w.writing ==> w.writer.Some?
    ensures FirstSegmentListeners(k, w, c, topics, s, pl, now).0.writing
  {
    var before := FirstSegmentListeners(k - 1, w, c, topics, s, pl, now);
    if k > 1 {
      AutoStartWrites(k - 1, w, c, topics, s, pl, now);
    }
    var a := WriteArgs(0, s.timeLimit, s.repeated);
    if !before.0.writing {
      StartFromStopped(before.0, c, topics, a, now);
    } else {
      StartWhileWriting(before.0, c, topics, a, now);
    }
  }

  /** The arguments of the autoStart call startWriting(0, timeLimit,
      repeated) resolve to themselves, so the listener's start is that call. */
  lemma AutoStartArgumentsResolved(w: WriterState, c: CacheView, topics: Topics, s: NodeSettings, now: int)
    requires ValidSettings(s)
    ensures Writing.StartWriting(w, c, topics, DefaultsOf(s), Number(0), Number(s.timeLimit), Bool(s.repeated), now)
         == StartResolved(w, c, topics, WriteArgs(0, s.timeLimit, s.repeated), now)
  {
    DecimalRoundTrip(0);
    DecimalRoundTrip(s.timeLimit);
  }

  /** The autoStart of the first segment asks for no pre-buffer: from a
      stopped writer it sends the playlist when served and the
      initialization, and nothing else. */
  lemma AutoStartSkipsPreBuffer(c: CacheView, topics: Topics, s: NodeSettings, pl: Playlist, now: int)
    requires s.autoStart && c.initialization.Some?
    ensures FirstSegmentListener(Stopped, c, topics, s, pl, now).1
         == (if s.serveHttp || s.serveIo then [Status(topics.status, PlaylistStatus(pl))] else [])
            + [InitMessage(topics, c.initialization.value, c.duration)]
  {
    StartFromStopped(Stopped, c, topics, WriteArgs(0, s.timeLimit, s.repeated), now);
  }
}
