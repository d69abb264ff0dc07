/** How `handleMsg` (mp4frag.js:831-880) reads an input message: a buffer
    payload feeds the package, an `action` object drives the writer, and a
    payload carrying an exit `code` or `signal` resets the cache. */
module Dispatch {
  import opened JsValues
  import opened SegmentIndex

  /** `msg.payload` as handleMsg tells it apart: a Buffer; undefined or
      null, which cannot be destructured; or any other value, whose `code`
      and `signal` properties are read (undefined when absent, as on a
      string or a number). */
  datatype Payload =
    | BufferPayload(bytes: seq<byte>)
    | NullishPayload
    | OtherPayload(code: JsValue, signal: JsValue)

  /** `msg.action`: an object (typeof 'object'), null (also typeof 'object',
      but it cannot be destructured), or anything else, absent included */
  datatype Action =
    | ActionObject(subject: JsValue, command: JsValue, preBuffer: JsValue, timeLimit: JsValue, repeated: JsValue)
    | NullAction
    | NoAction

  /** What the node does with a message */
  datatype Command =
    | WriteChunk(bytes: seq<byte>)
    | Reset
    | StartCmd(preBuffer: JsValue, timeLimit: JsValue, repeated: JsValue)
    | RestartCmd(preBuffer: JsValue, timeLimit: JsValue, repeated: JsValue)
    | StopCmd
    | NoCommand
    | Fails

  /** handleMsg's decision, in the order the source checks */
  function Classify(payload: Payload, action: Action): (r: Command)
    // a buffer payload always wins, whatever the action
    ensures payload.BufferPayload? ==> r == (if |payload.bytes| > 0 then WriteChunk(payload.bytes) else Reset)
    ensures r.WriteChunk? <==> payload.BufferPayload? && |payload.bytes| > 0
    // a reset comes from an empty buffer, or from code/signal when there is no action object
    ensures r == Reset <==>
              || (payload.BufferPayload? && |payload.bytes| == 0)
              || (payload.OtherPayload? && action.NoAction? && (payload.code != Undefined || payload.signal != Undefined))
    // the destructuring TypeErrors
    ensures r == Fails <==> !payload.BufferPayload? && (action.NullAction? || (action.NoAction? && payload.NullishPayload?))
    // an action object never looks at code or signal
    ensures !payload.BufferPayload? && action.ActionObject? ==> r.StartCmd? || r.RestartCmd? || r == StopCmd || r == NoCommand
  {
    match payload
    case BufferPayload(bytes) => if |bytes| > 0 then WriteChunk(bytes) else Reset
    case _ =>
      match action
      case ActionObject(subject, command, preBuffer, timeLimit, repeated) =>
        if subject == Str("write") then
          if command == Str("start") then StartCmd(preBuffer, timeLimit, repeated)
          else if command == Str("restart") then RestartCmd(preBuffer, timeLimit, repeated)
          else StopCmd
        else NoCommand
      case NullAction => Fails
      case NoAction =>
        match payload
        case NullishPayload => Fails
        case OtherPayload(code, signal) => if code != Undefined || signal != Undefined then Reset else NoCommand
  }

  /** The write commands: 'start' starts, 'restart' restarts, and every other
      command, 'stop' included, stops; other subjects are ignored. */
  lemma WriteCommands(payload: Payload, subject: JsValue, command: JsValue, preBuffer: JsValue, timeLimit: JsValue, repeated: JsValue)
    requires !payload.BufferPayload?
    ensures var r := Classify(payload, ActionObject(subject, command, preBuffer, timeLimit, repeated));
            && (subject != Str("write") ==> r == NoCommand)
            && (subject == Str("write") && command == Str("start") ==> r == StartCmd(preBuffer, timeLimit, repeated))
            && (subject == Str("write") && command == Str("restart") ==> r == RestartCmd(preBuffer, timeLimit, repeated))
            && (subject == Str("write") && command != Str("start") && command != Str("restart") ==> r == StopCmd)
  {
  }
}
