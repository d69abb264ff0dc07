/** The base-path registry every node shares (`Mp4fragNode.basePathMap`,
    mp4frag.js:87-114, 903): a base path names a node's HTTP routes,
    socket.io namespace and message topics, and at most one node holds it. */
module Registry {
  import opened Wrappers
  import opened OrderedMap
  import opened Messages

  /** The entry a base path maps to */
  datatype Item = Item(id: string, running: bool, serveHttp: bool, serveIo: bool)

  datatype PathError = BasePathInvalid | BasePathDuplicate

  /** One character of `[a-z\d_.]` under the `i` flag */
  predicate IsBasePathChar(c: char) {
    'a' <= c <= 'z' || 'A' <= c <= 'Z' || '0' <= c <= '9' || c == '_' || c == '.'
  }

  /** `/^[a-z\d_.]{1,50}$/i` (mp4frag.js:903) */
  predicate IsValidBasePath(p: string) {
    1 <= |p| <= 50 && forall i :: 0 <= i < |p| ==> IsBasePathChar(p[i])
  }

  /** The topics of the node with base path `basePath` (mp4frag.js:100-107) */
  function TopicsFor(basePath: string): (t: Topics)
    ensures t.status == "mp4frag/" + basePath + "/status"
    ensures t.init == "mp4frag/" + basePath + "/buffer/init"
    ensures t.pre == "mp4frag/" + basePath + "/buffer/pre"
    ensures t.seg == "mp4frag/" + basePath + "/buffer/seg"
  {
    var prefix := "mp4frag/" + basePath;
    Topics(prefix + "/status", prefix + "/buffer/init", prefix + "/buffer/pre", prefix + "/buffer/seg")
  }

  /** Two base paths that share a status topic are the same base path, so a
      node's messages never carry another node's topics. */
  lemma TopicsInjective(p: string, q: string)
    requires TopicsFor(p).status == TopicsFor(q).status
    ensures p == q
  {
    var tp, tq := TopicsFor(p).status, TopicsFor(q).status;
    assert |p| == |q|;
    forall i | 0 <= i < |p|
      ensures p[i] == q[i]
    {
      assert tp[8 + i] == p[i] && tq[8 + i] == q[i];
    }
  }

  /** What createPaths decides for node `id` asking for `basePath` in a
      registry holding `entries`: a base path other than the node's own id
      must match the pattern, and a path held by another node is refused. */
  function CreatePathsOutcome(entries: seq<(string, Item)>, id: string, basePath: string): (r: Result<Topics, PathError>)
    ensures r == Failure(BasePathInvalid) <==> id != basePath && !IsValidBasePath(basePath)
    ensures r == Failure(BasePathDuplicate) <==>
              (id == basePath || IsValidBasePath(basePath))
              && Get(entries, basePath).Some? && Get(entries, basePath).value.id != id
    ensures r.Success? ==> r.value == TopicsFor(basePath)
  {
    if id != basePath && !IsValidBasePath(basePath) then Failure(BasePathInvalid)
    else
      match Get(entries, basePath)
      case Some(item) => if item.id != id then Failure(BasePathDuplicate) else Success(TopicsFor(basePath))
      case None => Success(TopicsFor(basePath))
  }

  class BasePathRegistry {
    /** The JS Map in insertion order */
    var entries: seq<(string, Item)>

    predicate Valid()
      reads this
    {
      DistinctKeys(entries)
    }

    constructor ()
      ensures Valid() && entries == []
    {
      entries := [];
    }

    /** createPaths (mp4frag.js:87-108): on success the entry for `basePath`
        is (re)set to a stopped, unserved item of node `id`, keeping its
        place in the map; nothing changes on failure. */
    method CreatePaths(id: string, basePath: string) returns (r: Result<Topics, PathError>)
      requires Valid()
      modifies this
      ensures Valid()
      ensures r == CreatePathsOutcome(old(entries), id, basePath)
      ensures r.Success? ==> entries == Set(old(entries), basePath, Item(id, false, false, false))
      ensures r.Failure? ==> entries == old(entries)
    {
      if id != basePath && !IsValidBasePath(basePath) {
        return Failure(BasePathInvalid);
      }
      var item := Get(entries, basePath);
      if item.Some? && item.value.id != id {
        return Failure(BasePathDuplicate);
      }
      entries := Set(entries, basePath, Item(id, false, false, false));
      r := Success(TopicsFor(basePath));
    }

    /** destroyPaths (mp4frag.js:110-114): only the entry of `basePath` goes. */
    method DestroyPaths(basePath: string)
      requires Valid()
      modifies this
      ensures Valid()
      ensures entries == Delete(old(entries), basePath)
    {
      entries := Delete(entries, basePath);
    }

    /** `item.running = running` on the node's own entry (mp4frag.js:130-132,
        221-223); the entry has to exist, as reading `running` off an
        undefined item throws. */
    method SetRunning(basePath: string, running: bool)
      requires Valid() && HasKey(entries, basePath)
      modifies this
      ensures Valid()
      ensures entries == Set(old(entries), basePath, Get(old(entries), basePath).value.(running := running))
    {
      var item := Get(entries, basePath).value;
      entries := Set(entries, basePath, item.(running := running));
    }

    /** `item.serveHttp = true` and `item.serveIo = true` once the node's
        routes and namespace are up (mp4frag.js:415-417, 632-634) */
    method SetServing(basePath: string, serveHttp: bool, serveIo: bool)
      requires Valid() && HasKey(entries, basePath)
      modifies this
      ensures Valid()
      ensures entries == Set(old(entries), basePath, Get(old(entries), basePath).value.(serveHttp := serveHttp, serveIo := serveIo))
    {
      var item := Get(entries, basePath).value;
      entries := Set(entries, basePath, item.(serveHttp := serveHttp, serveIo := serveIo));
    }
  }

  /** A node that registers a fresh base path and is destroyed leaves the
      registry as it found it. */
  lemma {:induction false} CreateThenDestroy(entries: seq<(string, Item)>, id: string, basePath: string)
    requires DistinctKeys(entries) && !HasKey(entries, basePath)
    requires CreatePathsOutcome(entries, id, basePath).Success?
    ensures Delete(Set(entries, basePath, Item(id, false, false, false)), basePath) == entries
  {
    SetThenDelete(entries, basePath, Item(id, false, false, false));
  }

  /** A node may always take its own id as base path, whatever characters
      the id holds, as long as no other node holds it. */
  lemma OwnIdAccepted(entries: seq<(string, Item)>, id: string)
    requires Get(entries, id).None? || Get(entries, id).value.id == id
    ensures CreatePathsOutcome(entries, id, id) == Success(TopicsFor(id))
  {
  }

  /** Re-registering by the holder keeps every other node's entry and the
      number of entries. */
  lemma ReRegisterKeepsOthers(entries: seq<(string, Item)>, id: string, basePath: string)
    requires DistinctKeys(entries) && Get(entries, basePath).Some? && Get(entries, basePath).value.id == id
    requires CreatePathsOutcome(entries, id, basePath).Success?
    ensures var r := Set(entries, basePath, Item(id, false, false, false));
            && |r| == |entries|
            && forall p :: p != basePath ==> Get(r, p) == Get(entries, p)
  {
  }

  /** A base path that matches the pattern is one URL path segment and one
      topic level: it is non-empty, at most 50 characters long and holds no
      '/' (nor '?' or '#', which would end the route's path). */
  lemma ValidBasePathIsOneSegment(p: string)
    requires IsValidBasePath(p)
    ensures 1 <= |p| <= 50
    ensures forall i :: 0 <= i < |p| ==> p[i] != '/' && p[i] != '?' && p[i] != '#'
  {
  }
}
