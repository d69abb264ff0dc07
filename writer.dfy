/** The writer state machine of startWriting / stopWriting
    (mp4frag.js:700-817), as functions from the old state to the new state
    and the messages sent on the way. Node.Mp4fragNode carries the state in
    its fields and is proved to follow these functions. Date.now() is the
    parameter `now`. */
module Writing {
  import opened Wrappers
  import opened JsValues
  import opened ParseInt
  import opened SegmentIndex
  import opened Messages
  import opened Cache

  /** Number.MAX_SAFE_INTEGER, the upper bound of a time limit */
  const MaxSafeInteger: int := 9_007_199_254_740_991

  datatype WriteMode = Unlimited | Single | Continuous

  /** The closure startWriting stores in `mp4fragWriter`; the continuous one
      captures its own end time and the arguments it restarts with. */
  datatype Writer =
    | UnlimitedWriter
    | SingleWriter
    | ContinuousWriter(endTime: int, preBuffer: int, timeLimit: int, repeated: bool)

  /** The fields `writing`, `writeMode`, `endTime` and `mp4fragWriter`;
      `undefined` is None. */
  datatype WriterState = WriterState(writing: bool, writeMode: Option<WriteMode>, endTime: Option<int>, writer: Option<Writer>)

  /** The state of a new node, and of one that stopped writing */
  const Stopped: WriterState := WriterState(false, None, None, None)

  /** The node's own `timeLimit`, `preBuffer` and `repeated` settings, which
      startWriting falls back on */
  datatype WriteDefaults = WriteDefaults(timeLimit: int, preBuffer: int, repeated: bool)

  /** The node's settings are clamped by getInt when it is created
      (mp4frag.js:46-50) */
  predicate ValidDefaults(d: WriteDefaults) {
    -1 <= d.timeLimit <= MaxSafeInteger && 0 <= d.preBuffer <= 5
  }

  /** The arguments of startWriting after their defaults and clamping
      (mp4frag.js:711-715) */
  datatype WriteArgs = WriteArgs(preBuffer: int, timeLimit: int, repeated: bool)

  function ResolveArgs(d: WriteDefaults, preBuffer: JsValue, timeLimit: JsValue, repeated: JsValue): (a: WriteArgs)
    ensures ValidDefaults(d) ==> -1 <= a.timeLimit <= MaxSafeInteger && 0 <= a.preBuffer <= 5
    ensures a.repeated == if repeated.Bool? then repeated.b else d.repeated
  {
    WriteArgs(
      GetInt(0, 5, d.preBuffer, preBuffer),
      GetInt(-1, MaxSafeInteger, d.timeLimit, timeLimit),
      if repeated.Bool? then repeated.b else d.repeated)
  }

  /** mp4frag.js:717 */
  function ModeOf(timeLimit: int, repeated: bool): WriteMode {
    if timeLimit == -1 then Unlimited else if repeated then Continuous else Single
  }

  /** The states a node's writer can be in: stopped with every field cleared,
      or writing with a closure of the recorded mode; only the single mode
      keeps `endTime` in the field. */
  predicate ValidWriter(w: WriterState) {
    if !w.writing then w == Stopped
    else match w.writer
      case None => false
      case Some(UnlimitedWriter) => w.writeMode == Some(Unlimited) && w.endTime == None
      case Some(SingleWriter) => w.writeMode == Some(Single) && w.endTime.Some?
      case Some(ContinuousWriter(_, pb, tl, rep)) =>
        w.writeMode == Some(Continuous) && w.endTime == None && 0 <= pb <= 5 && 0 <= tl <= MaxSafeInteger && rep
  }

  /** The retained initialization message that opens a stream */
  function InitMessage(topics: Topics, init: seq<byte>, duration: real): Message {
    BufferMessage(topics.init, true, init, InitInfo(duration))
  }

  /** The retained empty buffer that closes a stream (mp4frag.js:810) */
  function EndMessage(topics: Topics): Message {
    BufferMessage(topics.init, true, [], NoInfo)
  }

  /** The pre-buffer burst (mp4frag.js:728-744): every buffered segment from
      the index of the last `preBuffer` eligible ones on. */
  function PreBuffer(topics: Topics, c: CacheView, preBuffer: int): seq<Message> {
    if preBuffer > 0 then
      var lastIndex := LastIndex(c.segmentObjects, c.allKeyframes, preBuffer);
      LastIndexSpec(c.segmentObjects, c.allKeyframes, preBuffer);
      if lastIndex > -1 then SegmentMessages(topics.pre, c.segmentObjects[lastIndex..]) else []
    else []
  }

  /** The writer startWriting installs for `mode` (mp4frag.js:750-792) */
  function Started(w: WriterState, mode: WriteMode, a: WriteArgs, now: int): WriterState {
    match mode
    case Unlimited => WriterState(true, Some(Unlimited), w.endTime, Some(UnlimitedWriter))
    case Single => WriterState(true, Some(Single), Some(now + a.timeLimit), Some(SingleWriter))
    case Continuous =>
      WriterState(true, Some(Continuous), w.endTime, Some(ContinuousWriter(now + a.timeLimit, a.preBuffer, a.timeLimit, a.repeated)))
  }

  /** startWriting(preBuffer, timeLimit, repeated) (mp4frag.js:700-797):
      its arguments resolved, then `StartResolved`. */
  function StartWriting(w: WriterState, c: CacheView, topics: Topics, d: WriteDefaults,
                        preBuffer: JsValue, timeLimit: JsValue, repeated: JsValue, now: int): (WriterState, seq<Message>)
  {
    StartResolved(w, c, topics, ResolveArgs(d, preBuffer, timeLimit, repeated), now)
  }

  /** The body of startWriting after its arguments are resolved to `a`
      (mp4frag.js:702-796): nothing without an initialization; while
      writing, only a single writer asked to write singly again moves its
      end time; otherwise the initialization and the pre-buffer are sent and
      the writer of the mode is installed. */
  function StartResolved(w: WriterState, c: CacheView, topics: Topics, a: WriteArgs, now: int): (WriterState, seq<Message>)
  {
    match c.initialization
    case None => (w, [])
    case Some(init) =>
      var mode := ModeOf(a.timeLimit, a.repeated);
      if w.writing then
        if mode == Single && w.writeMode == Some(Single) then (w.(endTime := Some(now + a.timeLimit)), []) else (w, [])
      else
        (Started(w, mode, a, now), [InitMessage(topics, init, c.duration)] + PreBuffer(topics, c, a.preBuffer))
  }

  /** stopWriting() (mp4frag.js:799-817) */
  function Stop(w: WriterState, topics: Topics): (WriterState, seq<Message>) {
    if !w.writing then (w, []) else (Stopped, [EndMessage(topics)])
  }

  /** The writer closure called on a segment `o` (mp4frag.js:190-192,
      753-785): it sends the segment, then a single writer past its end time
      stops and a continuous one past its end time stops and starts again
      with the arguments it captured. The closure passes those numbers back
      through startWriting; they are already resolved, and
      `RestartArgumentsUnchanged` proves that resolving them again leaves
      them as they are, so the restart is taken from `StartResolved`. */
  function Deliver(w: WriterState, c: CacheView, topics: Topics, d: WriteDefaults, o: SegmentObject, now: int): (WriterState, seq<Message>)
  {
    if !w.writing || w.writer.None? then (w, [])
    else
      var msg := SegmentMessage(topics.seg, o);
      match w.writer.value
      case UnlimitedWriter => (w, [msg])
      case SingleWriter =>
        if w.endTime.Some? && now >= w.endTime.value then (Stop(w, topics).0, [msg] + Stop(w, topics).1) else (w, [msg])
      case ContinuousWriter(e, pb, tl, rep) =>
        if now >= e then
          var stopped := Stop(w, topics);
          var restarted := StartResolved(stopped.0, c, topics, WriteArgs(pb, tl, rep), now);
          (restarted.0, [msg] + stopped.1 + restarted.1)
        else (w, [msg])
  }

  /** startWriting from a stopped writer with an initialization: it ends up
      writing, in the unlimited mode exactly when the time limit is -1,
      otherwise continuous when repeated and single when not; it first sends
      the initialization, then the pre-buffer. */
  lemma StartFromStopped(w: WriterState, c: CacheView, topics: Topics, a: WriteArgs, now: int)
    requires c.initialization.Some? && !w.writing
    ensures var (w', out) := StartResolved(w, c, topics, a, now);
            && w'.writing
            && (w'.writeMode == Some(Unlimited) <==> a.timeLimit == -1)
            && (w'.writeMode == Some(Continuous) <==> a.timeLimit != -1 && a.repeated)
            && (w'.writeMode == Some(Single) <==> a.timeLimit != -1 && !a.repeated)
            && (w'.writeMode == Some(Single) ==> w'.endTime == Some(now + a.timeLimit))
            && out == [InitMessage(topics, c.initialization.value, c.duration)] + PreBuffer(topics, c, a.preBuffer)
  {
  }

  /** startWriting changes nothing before the package is initialized */
  lemma StartWithoutInitialization(w: WriterState, c: CacheView, topics: Topics, a: WriteArgs, now: int)
    requires c.initialization.None?
    ensures StartResolved(w, c, topics, a, now) == (w, [])
  {
  }

  /** startWriting while writing sends nothing; it only moves the end time
      of a single writer asked to write singly again. */
  lemma StartWhileWriting(w: WriterState, c: CacheView, topics: Topics, a: WriteArgs, now: int)
    requires w.writing
    ensures var (w', out) := StartResolved(w, c, topics, a, now);
            && out == []
            && w'.(endTime := w.endTime) == w
            && (w'.endTime != w.endTime ==>
                  c.initialization.Some? && w.writeMode == Some(Single) && ModeOf(a.timeLimit, a.repeated) == Single
                  && w'.endTime == Some(now + a.timeLimit))
  {
  }

  /** stopWriting clears the writer and sends the empty buffer once; a
      second stop changes nothing and sends nothing. */
  lemma StopIdempotent(w: WriterState, topics: Topics)
    ensures w.writing ==> Stop(w, topics) == (Stopped, [EndMessage(topics)])
    ensures !w.writing ==> Stop(w, topics) == (w, [])
    ensures Stop(Stop(w, topics).0, topics) == (Stop(w, topics).0, [])
  {
  }

  /** A single writer stops after the segment that reaches its end time, and
      only then. */
  lemma SingleWriterStops(w: WriterState, c: CacheView, topics: Topics, d: WriteDefaults, o: SegmentObject, now: int)
    requires ValidWriter(w) && w.writer == Some(SingleWriter)
    ensures var (w', out) := Deliver(w, c, topics, d, o, now);
            && (now >= w.endTime.value ==> w' == Stopped && out == [SegmentMessage(topics.seg, o), EndMessage(topics)])
            && (now < w.endTime.value ==> w' == w && out == [SegmentMessage(topics.seg, o)])
  {
  }

  /** Arguments already in range pass through the defaults and the clamping
      of startWriting unchanged. */
  lemma ClampedArgsRoundTrip(d: WriteDefaults, preBuffer: int, timeLimit: int, repeated: bool)
    requires 0 <= preBuffer <= 5 && 0 <= timeLimit <= MaxSafeInteger
    ensures ResolveArgs(d, Number(preBuffer), Number(timeLimit), Bool(repeated)) == WriteArgs(preBuffer, timeLimit, repeated)
  {
    DecimalRoundTrip(preBuffer);
    DecimalRoundTrip(timeLimit);
  }

  /** A continuous writer that reaches its end time stops and starts again
      at once: it is writing again, in the continuous mode, with the same
      pre-buffer, time limit and repetition and an end time `timeLimit` from
      now. The round trip of its clamped arguments through getInt is what
      keeps them unchanged. */
  lemma ContinuousWriterRestarts(w: WriterState, c: CacheView, topics: Topics, d: WriteDefaults, o: SegmentObject, now: int)
    requires ValidWriter(w) && w.writer.Some? && w.writer.value.ContinuousWriter?
    requires c.initialization.Some?
    requires now >= w.writer.value.endTime
    ensures
      var cw := w.writer.value;
      Deliver(w, c, topics, d, o, now)
        == (WriterState(true, Some(Continuous), None, Some(ContinuousWriter(now + cw.timeLimit, cw.preBuffer, cw.timeLimit, true))),
            [SegmentMessage(topics.seg, o), EndMessage(topics), InitMessage(topics, c.initialization.value, c.duration)]
            + PreBuffer(topics, c, cw.preBuffer))
  {
    var cw := w.writer.value;
    var msg, end, init := SegmentMessage(topics.seg, o), EndMessage(topics), InitMessage(topics, c.initialization.value, c.duration);
    var pre := PreBuffer(topics, c, cw.preBuffer);
    assert Stop(w, topics) == (Stopped, [end]);
    assert StartResolved(Stopped, c, topics, WriteArgs(cw.preBuffer, cw.timeLimit, true), now).1 == [init] + pre;
    assert [msg] + [end] + ([init] + pre) == [msg, end, init] + pre;
  }

  /** The restart of a continuous writer calls startWriting with the
      numbers it captured; in a valid writer they pass through the defaults
      and getInt unchanged, so the restart is the resolved start with those
      same arguments. */
  lemma RestartArgumentsUnchanged(w: WriterState, c: CacheView, topics: Topics, d: WriteDefaults, now: int)
    requires ValidWriter(w) && w.writer.Some? && w.writer.value.ContinuousWriter?
    ensures
      var cw := w.writer.value;
      StartWriting(Stopped, c, topics, d, Number(cw.preBuffer), Number(cw.timeLimit), Bool(cw.repeated), now)
        == StartResolved(Stopped, c, topics, WriteArgs(cw.preBuffer, cw.timeLimit, cw.repeated), now)
  {
    var cw := w.writer.value;
    ClampedArgsRoundTrip(d, cw.preBuffer, cw.timeLimit, cw.repeated);
  }

  /** Every step keeps the writer in one of its valid states. */
  lemma StepsKeepWriterValid(w: WriterState, c: CacheView, topics: Topics, d: WriteDefaults,
                             preBuffer: JsValue, timeLimit: JsValue, repeated: JsValue, o: SegmentObject, now: int)
    requires ValidWriter(w) && ValidDefaults(d)
    ensures ValidWriter(StartWriting(w, c, topics, d, preBuffer, timeLimit, repeated, now).0)
    ensures ValidWriter(Stop(w, topics).0)
    ensures ValidWriter(Deliver(w, c, topics, d, o, now).0)
  {
    if w.writing && w.writer.Some? && w.writer.value.ContinuousWriter? && c.initialization.Some? && now >= w.writer.value.endTime {
      ContinuousWriterRestarts(w, c, topics, d, o, now);
    }
  }
}
