/** The segment objects the mp4frag package keeps, and the index
    `getSegmentObjectLastIndex(limit)` (mp4frag.js:942-958) finds among them:
    where the last `limit` segments a player can start from begin. */
module SegmentIndex {

  newtype byte = x: int | 0 <= x < 256

  /** One media segment as the package reports it: its bytes, sequence
      number, duration, timestamp and whether it starts with a key frame. */
  datatype SegmentObject = SegmentObject(
    segment: seq<byte>,
    sequence: int,
    duration: real,
    timestamp: int,
    keyframe: bool)

  /** A segment counts for the search when it is a key frame, or when the
      package found every segment to be one (`allKeyframes`). */
  predicate Eligible(o: SegmentObject, allKeyframes: bool) {
    allKeyframes || o.keyframe
  }

  /** How many segments of `s` are eligible */
  function CountEligible(s: seq<SegmentObject>, allKeyframes: bool): (n: nat)
    ensures n <= |s|
    ensures allKeyframes ==> n == |s|
  {
    if s == [] then 0
    else (if Eligible(s[0], allKeyframes) then 1 else 0) + CountEligible(s[1..], allKeyframes)
  }

  function Min(a: int, b: int): int {
    if a <= b then a else b
  }

  /** The specification of getSegmentObjectLastIndex, read from the end of
      the list: the `limit`-th eligible segment from the end, or the first
      eligible one when there are fewer; -1 when the list is empty, `limit` is
      not positive or no segment is eligible. */
  function LastIndex(s: seq<SegmentObject>, allKeyframes: bool, limit: int): int
    decreases |s|
  {
    if s == [] || limit <= 0 then -1
    else
      var n := |s| - 1;
      if !Eligible(s[n], allKeyframes) then LastIndex(s[..n], allKeyframes, limit)
      else if limit == 1 then n
      else
        var j := LastIndex(s[..n], allKeyframes, limit - 1);
        if j < 0 then n else j
  }

  lemma {:induction false} CountEligibleAppend(a: seq<SegmentObject>, b: seq<SegmentObject>, allKeyframes: bool)
    ensures CountEligible(a + b, allKeyframes) == CountEligible(a, allKeyframes) + CountEligible(b, allKeyframes)
  {
    if a == [] {
      assert a + b == b;
    } else {
      assert (a + b)[0] == a[0] && (a + b)[1..] == a[1..] + b;
      CountEligibleAppend(a[1..], b, allKeyframes);
    }
  }

  /** Counting the eligible segments of a suffix one position further back */
  lemma {:induction false} CountEligibleStep(s: seq<SegmentObject>, i: nat, allKeyframes: bool)
    requires i < |s|
    ensures CountEligible(s[i..], allKeyframes)
            == (if Eligible(s[i], allKeyframes) then 1 else 0) + CountEligible(s[i + 1..], allKeyframes)
  {
    assert s[i..][0] == s[i] && s[i..][1..] == s[i + 1..];
  }

  /** What getSegmentObjectLastIndex promises: -1 exactly when there is
      nothing to find, and otherwise an eligible index from which on the list
      holds min(limit, number of eligible segments) eligible segments. */
  predicate LastIndexMeets(s: seq<SegmentObject>, allKeyframes: bool, limit: int, r: int) {
    && (r == -1 <==> s == [] || limit <= 0 || CountEligible(s, allKeyframes) == 0)
    && (r != -1 ==>
          && 0 <= r < |s|
          && Eligible(s[r], allKeyframes)
          && CountEligible(s[r..], allKeyframes) == Min(limit, CountEligible(s, allKeyframes)))
  }

  lemma {:induction false} LastIndexSpec(s: seq<SegmentObject>, allKeyframes: bool, limit: int)
    ensures LastIndexMeets(s, allKeyframes, limit, LastIndex(s, allKeyframes, limit))
    decreases |s|
  {
    if s != [] && limit > 0 {
      var n := |s| - 1;
      if !Eligible(s[n], allKeyframes) {
        LastIndexSpec(s[..n], allKeyframes, limit);
        SkipIneligibleLast(s, allKeyframes, limit);
      } else if limit > 1 {
        LastIndexSpec(s[..n], allKeyframes, limit - 1);
        TakeEligibleLast(s, allKeyframes, limit);
      } else {
        SplitLast(s, 0, allKeyframes);
        EligibleLastAlone(s, allKeyframes);
      }
    }
  }

  /** The step of LastIndexSpec past an ineligible last segment */
  lemma SkipIneligibleLast(s: seq<SegmentObject>, allKeyframes: bool, limit: int)
    requires s != [] && limit > 0 && !Eligible(s[|s| - 1], allKeyframes)
    requires LastIndexMeets(s[..|s| - 1], allKeyframes, limit, LastIndex(s[..|s| - 1], allKeyframes, limit))
    ensures LastIndexMeets(s, allKeyframes, limit, LastIndex(s, allKeyframes, limit))
  {
    var p := s[..|s| - 1];
    var j := LastIndex(p, allKeyframes, limit);
    assert LastIndex(s, allKeyframes, limit) == j;
    SplitLast(s, 0, allKeyframes);
    if j >= 0 {
      SplitLast(s, j, allKeyframes);
    }
  }

  /** The step of LastIndexSpec that counts an eligible last segment */
  lemma TakeEligibleLast(s: seq<SegmentObject>, allKeyframes: bool, limit: int)
    requires s != [] && limit > 1 && Eligible(s[|s| - 1], allKeyframes)
    requires LastIndexMeets(s[..|s| - 1], allKeyframes, limit - 1, LastIndex(s[..|s| - 1], allKeyframes, limit - 1))
    ensures LastIndexMeets(s, allKeyframes, limit, LastIndex(s, allKeyframes, limit))
  {
    var p := s[..|s| - 1];
    var j := LastIndex(p, allKeyframes, limit - 1);
    SplitLast(s, 0, allKeyframes);
    if j >= 0 {
      assert LastIndex(s, allKeyframes, limit) == j;
      EarlierIndexKept(s, allKeyframes, limit, j);
    } else {
      assert LastIndex(s, allKeyframes, limit) == |s| - 1;
      EligibleLastAlone(s, allKeyframes);
    }
  }

  /** An index found in all but the last, eligible, segment, for one
      segment less, is the index for the whole list. */
  lemma EarlierIndexKept(s: seq<SegmentObject>, allKeyframes: bool, limit: int, j: int)
    requires s != [] && limit > 1 && Eligible(s[|s| - 1], allKeyframes)
    requires 0 <= j < |s| - 1 && Eligible(s[j], allKeyframes)
    requires CountEligible(s[..|s| - 1][j..], allKeyframes) == Min(limit - 1, CountEligible(s[..|s| - 1], allKeyframes))
    requires CountEligible(s, allKeyframes) == CountEligible(s[..|s| - 1], allKeyframes) + 1
    ensures LastIndexMeets(s, allKeyframes, limit, j)
  {
    SplitLast(s, j, allKeyframes);
  }

  /** The suffix made of an eligible last segment holds one eligible segment. */
  lemma EligibleLastAlone(s: seq<SegmentObject>, allKeyframes: bool)
    requires s != [] && Eligible(s[|s| - 1], allKeyframes)
    ensures CountEligible(s[|s| - 1..], allKeyframes) == 1
  {
    assert s[|s| - 1..] == [s[|s| - 1]];
    assert CountEligible([s[|s| - 1]], allKeyframes) == 1 + CountEligible([], allKeyframes);
  }

  /** Counting the eligible segments from `r` on, the last segment apart */
  lemma {:induction false} SplitLast(s: seq<SegmentObject>, r: nat, allKeyframes: bool)
    requires r < |s|
    ensures CountEligible(s[r..], allKeyframes)
            == CountEligible(s[..|s| - 1][r..], allKeyframes) + (if Eligible(s[|s| - 1], allKeyframes) then 1 else 0)
    ensures r == 0 ==> s[r..] == s && s[..|s| - 1][r..] == s[..|s| - 1]
  {
    var n := |s| - 1;
    var p := s[..n];
    assert s[r..] == p[r..] + [s[n]];
    CountEligibleAppend(p[r..], [s[n]], allKeyframes);
    assert CountEligible([s[n]], allKeyframes) == if Eligible(s[n], allKeyframes) then 1 else 0;
  }

  /** At most one index is eligible and has a given positive number of
      eligible segments from it on, so the characterisation above pins the
      result down. */
  lemma {:induction false} SuffixCountDeterminesIndex(s: seq<SegmentObject>, allKeyframes: bool, r1: nat, r2: nat)
    requires r1 < |s| && r2 < |s|
    requires Eligible(s[r1], allKeyframes) && Eligible(s[r2], allKeyframes)
    requires CountEligible(s[r1..], allKeyframes) == CountEligible(s[r2..], allKeyframes)
    ensures r1 == r2
  {
    if r1 < r2 {
      StrictlyMoreFromEarlierEligible(s, allKeyframes, r1, r2);
    } else if r2 < r1 {
      StrictlyMoreFromEarlierEligible(s, allKeyframes, r2, r1);
    }
  }

  lemma {:induction false} StrictlyMoreFromEarlierEligible(s: seq<SegmentObject>, allKeyframes: bool, a: nat, b: nat)
    requires a < b < |s| && Eligible(s[a], allKeyframes)
    ensures CountEligible(s[a..], allKeyframes) > CountEligible(s[b..], allKeyframes)
  {
    assert s[a..] == s[a..b] + s[b..];
    CountEligibleAppend(s[a..b], s[b..], allKeyframes);
    assert s[a..b][0] == s[a];
  }

  /** Whatever meets the characterisation is the specification's index. */
  lemma LastIndexUnique(s: seq<SegmentObject>, allKeyframes: bool, limit: int, r: int)
    requires LastIndexMeets(s, allKeyframes, limit, r)
    ensures r == LastIndex(s, allKeyframes, limit)
  {
    LastIndexSpec(s, allKeyframes, limit);
    var q := LastIndex(s, allKeyframes, limit);
    if r != -1 {
      SuffixCountDeterminesIndex(s, allKeyframes, r, q);
    }
  }

  /** With `allKeyframes` every segment is eligible and the search simply
      steps `limit` places back from the end, stopping at the first segment. */
  lemma {:induction false} LastIndexAllKeyframes(s: seq<SegmentObject>, limit: int)
    ensures LastIndex(s, true, limit) == if s == [] || limit <= 0 then -1 else if |s| <= limit then 0 else |s| - limit
    decreases |s|
  {
    if s != [] && limit > 1 {
      LastIndexAllKeyframes(s[..|s| - 1], limit - 1);
    }
  }

  /** The bytes of a run of segments, one after the other (Buffer.concat) */
  function Concat(s: seq<SegmentObject>): (r: seq<byte>)
    ensures |s| == 1 ==> r == s[0].segment
  {
    if s == [] then [] else s[0].segment + Concat(s[1..])
  }

  /** The summed duration of a run of segments */
  function TotalDuration(s: seq<SegmentObject>): real {
    if s == [] then 0.0 else s[0].duration + TotalDuration(s[1..])
  }
}
