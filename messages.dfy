/** What the node sends on its two outputs (Node-RED `send`): status
    messages on the first, the buffer stream on the second (`send([null, msg])`). */
module Messages {
  import opened Wrappers
  import opened SegmentIndex

  /** The topics createPaths derives from the base path (mp4frag.js:100-107) */
  datatype Topics = Topics(status: string, init: string, pre: string, seg: string)

  /** The socket.io client description the playlist status carries */
  datatype SocketIoClient = SocketIoClient(path: string, namespace: string, key: string)

  /** `this.playlist` once the first segment arrived (mp4frag.js:136-142) */
  datatype Playlist = Playlist(hlsPlaylist: Option<string>, mp4Video: Option<string>, socketIo: Option<SocketIoClient>)

  datatype StatusPayload =
    | InitializedStatus(mime: string, videoCodec: string, audioCodec: string)
    | PlaylistStatus(playlist: Playlist)
    | SegmentStatus(sequence: int, duration: real, byteLength: nat, keyframe: bool, totalDuration: real, totalByteLength: int)
    | ResetStatus

  /** The extra properties of a buffer message: the package's duration on
      the initialization message, a segment's data on pre-buffer and
      segment messages, nothing on the empty buffer that ends a stream. */
  datatype BufferInfo =
    | NoInfo
    | InitInfo(duration: real)
    | SegmentInfo(duration: real, timestamp: int, sequence: int)

  datatype Message =
    | Status(topic: string, status: StatusPayload)
    | BufferMessage(topic: string, retain: bool, payload: seq<byte>, info: BufferInfo)
  {
    /** The output the message leaves on, counted from 1 */
    function Output(): nat {
      if Status? then 1 else 2
    }
  }

  /** The message that carries one segment on topic `topic` */
  function SegmentMessage(topic: string, o: SegmentObject): Message {
    BufferMessage(topic, false, o.segment, SegmentInfo(o.duration, o.timestamp, o.sequence))
  }

  /** One segment message per segment of `s`, in order */
  function SegmentMessages(topic: string, s: seq<SegmentObject>): (r: seq<Message>)
    ensures |r| == |s|
    ensures forall i :: 0 <= i < |s| ==> r[i] == SegmentMessage(topic, s[i])
  {
    if s == [] then [] else SegmentMessages(topic, s[..|s| - 1]) + [SegmentMessage(topic, s[|s| - 1])]
  }
}
