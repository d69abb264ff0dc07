/** The mp4frag package object that the node creates (mp4frag.js:116-121)
    and reads. Its parser and segment window are not part of this model: the
    fields stand for the values its getters report, and the environment sets
    them. What the node itself does with the object is modelled: it writes
    chunks to it, resets it, and asks it for getSegmentObjectLastIndex, a
    method the node file adds to the package's prototype (mp4frag.js:942-958). */
module Cache {
  import opened Wrappers
  import opened SegmentIndex

  /** The two ways createMp4frag configures the package (mp4frag.js:117-119):
      an HLS playlist of `size` plus `extra` segments when HTTP is served, a
      plain segment count otherwise. */
  datatype Mp4FragConfig =
    | HlsConfig(hlsPlaylistBase: string, hlsPlaylistSize: int, hlsPlaylistExtra: int, hlsPlaylistInit: bool)
    | CountConfig(segmentCount: int)

  /** What startWriting reads from the package in one go */
  datatype CacheView = CacheView(
    initialization: Option<seq<byte>>,
    duration: real,
    segmentObjects: seq<SegmentObject>,
    allKeyframes: bool)

  /** Where the backward scan of GetSegmentObjectLastIndex stops, it has found
      what the specification asks for. */
  lemma ScanComplete(s: seq<SegmentObject>, allKeyframes: bool, limit: int, i: int, count: nat, lastIndex: int)
    requires s != [] && -1 <= i < |s|
    requires !(i >= 0 && count < limit)
    requires count == CountEligible(s[i + 1..], allKeyframes)
    requires count <= limit || count == 0
    requires count == 0 ==> lastIndex == -1
    requires count > 0 ==> i < lastIndex < |s| && Eligible(s[lastIndex], allKeyframes)
                           && CountEligible(s[lastIndex..], allKeyframes) == count
    ensures LastIndexMeets(s, allKeyframes, limit, lastIndex)
  {
    if i < 0 {
      assert s[i + 1..] == s;
    } else {
      var p, q := s[..i + 1], s[i + 1..];
      assert p + q == s;
      CountEligibleAppend(p, q, allKeyframes);
      assert CountEligible(s, allKeyframes) >= count;
    }
  }

  class Mp4Frag {
    const config: Mp4FragConfig
    var initialization: Option<seq<byte>>
    var segmentObjects: seq<SegmentObject>
    var allKeyframes: bool
    /** the latest segment, `null` before the first one */
    var segmentObject: Option<SegmentObject>
    var sequence: int
    var timestamp: int
    var duration: real
    var totalDuration: real
    var totalByteLength: int
    /** every chunk handed to `write`, in order */
    var written: seq<seq<byte>>

    constructor (config: Mp4FragConfig)
      ensures this.config == config
      ensures initialization == None && segmentObjects == [] && segmentObject == None && written == []
    {
      this.config := config;
      initialization := None;
      segmentObjects := [];
      allKeyframes := false;
      segmentObject := None;
      sequence := -1;
      timestamp := -1;
      duration := 0.0;
      totalDuration := 0.0;
      totalByteLength := 0;
      written := [];
    }

    function View(): CacheView
      reads this
    {
      CacheView(initialization, duration, segmentObjects, allKeyframes)
    }

    /** Mp4Frag.prototype.write: the chunk goes to the package's parser */
    method Write(chunk: seq<byte>)
      modifies this`written
      ensures written == old(written) + [chunk]
    {
      written := written + [chunk];
    }

    /** Mp4Frag.prototype.resetCache: the initialization and the buffered
        segments are dropped (the package then emits 'reset', which the node
        handles in Node.Mp4fragNode.OnReset). */
    method ResetCache()
      modifies this`initialization, this`segmentObjects, this`segmentObject
      ensures initialization == None && segmentObjects == [] && segmentObject == None
    {
      initialization := None;
      segmentObjects := [];
      segmentObject := None;
    }

    /** Mp4Frag.prototype.getSegmentObjectLastIndex (mp4frag.js:942-958): walk
        back from the newest segment, remembering each eligible index, until
        `limit` eligible segments are counted or the list is exhausted. It
        modifies nothing. */
    method GetSegmentObjectLastIndex(limit: int) returns (lastIndex: int)
      ensures LastIndexMeets(segmentObjects, allKeyframes, limit, lastIndex)
      ensures lastIndex == LastIndex(segmentObjects, allKeyframes, limit)
    {
      lastIndex := -1;
      var s := segmentObjects;
      if |s| > 0 {
        var count := 0;
        var i := |s| - 1;
        while i >= 0 && count < limit
          invariant -1 <= i < |s|
          invariant count == CountEligible(s[i + 1..], allKeyframes)
          invariant count <= limit || count == 0
          invariant count == 0 ==> lastIndex == -1
          invariant count > 0 ==> i < lastIndex < |s| && Eligible(s[lastIndex], allKeyframes)
                                  && CountEligible(s[lastIndex..], allKeyframes) == count
        {
          CountEligibleStep(s, i, allKeyframes);
          if allKeyframes || s[i].keyframe {
            lastIndex := i;
            count := count + 1;
          }
          i := i - 1;
        }
        ScanComplete(s, allKeyframes, limit, i, count, lastIndex);
      }
      LastIndexUnique(s, allKeyframes, limit, lastIndex);
    }
  }
}
