/** Registry manifests: the tag predicates that tie a manifest to a cluster
    type, tag membership, and ordering a decoded listing by timestamp. */
module Manifests {
  import opened Strings

  /** One manifest of a repository; the timestamp is an instant as an integer. */
  datatype Manifest = Manifest(digest: string, tags: seq<string>, timestamp: int)

  /** The cluster types the source knows of, in the order it tries them. */
  const ClusterTypes: seq<string> := ["development", "production", "playground"]

  /** Some tag starts with `prefix`; scans the tags front to back and stops at
      the first match. */
  function AnyTagHasPrefix(tags: seq<string>, prefix: string): (r: bool)
    ensures r <==> exists i :: 0 <= i < |tags| && HasPrefix(tags[i], prefix)
  {
    if |tags| == 0 then false
    else if HasPrefix(tags[0], prefix) then true
    else AnyTagHasPrefix(tags[1..], prefix)
  }

  /** The manifest carries a tag `<clusterType>-...`. */
  function IsTaggedForCurrentClustertype(m: Manifest, clusterType: string): (r: bool)
    ensures r <==> exists tag :: tag in m.tags && HasPrefix(tag, clusterType + "-")
  {
    AnyTagHasPrefix(m.tags, clusterType + "-")
  }

  /** None of `types` has a tag on the manifest; tries them front to back and
      stops at the first that does. */
  function NoneTaggedFor(m: Manifest, types: seq<string>): (r: bool)
    ensures r <==> forall i :: 0 <= i < |types| ==> !IsTaggedForCurrentClustertype(m, types[i])
  {
    if |types| == 0 then true
    else if IsTaggedForCurrentClustertype(m, types[0]) then false
    else NoneTaggedFor(m, types[1..])
  }

  /** The manifest is tagged for none of the known cluster types. */
  function IsNotTaggedForAnyClustertype(m: Manifest): (r: bool)
    ensures r <==> forall c :: c in ClusterTypes ==> !IsTaggedForCurrentClustertype(m, c)
  {
    NoneTaggedFor(m, ClusterTypes)
  }

  /** Spelled out for the three known cluster types. */
  lemma NotTaggedForAnyIff(m: Manifest)
    ensures IsNotTaggedForAnyClustertype(m) <==>
      && !IsTaggedForCurrentClustertype(m, "development")
      && !IsTaggedForCurrentClustertype(m, "production")
      && !IsTaggedForCurrentClustertype(m, "playground")
  {
    assert ClusterTypes[0] == "development" && ClusterTypes[1] == "production" && ClusterTypes[2] == "playground";
  }

  /** Exact, case-sensitive tag membership, by a scan that stops at the first
      equal tag. */
  method Contains(m: Manifest, imageTag: string) returns (contains: bool)
    ensures contains <==> imageTag in m.tags
  {
    contains := false;
    var i := 0;
    while i < |m.tags|
      invariant 0 <= i <= |m.tags|
      invariant !contains
      invariant imageTag !in m.tags[..i]
    {
      if imageTag == m.tags[i] {
        contains := true;
        break;
      }
      i := i + 1;
    }
    assert m.tags[..|m.tags|] == m.tags;
  }

  /** The tag predicates look at the set of tags only: not at the digest, the
      timestamp, the order of the tags, or repeated tags. */
  lemma TagPredicatesDependOnTagSetOnly(m1: Manifest, m2: Manifest, clusterType: string, imageTag: string)
    requires forall t :: t in m1.tags <==> t in m2.tags
    ensures IsTaggedForCurrentClustertype(m1, clusterType) == IsTaggedForCurrentClustertype(m2, clusterType)
    ensures IsNotTaggedForAnyClustertype(m1) == IsNotTaggedForAnyClustertype(m2)
    ensures (imageTag in m1.tags) == (imageTag in m2.tags)
  {
    forall c | c in ClusterTypes
      ensures IsTaggedForCurrentClustertype(m1, c) == IsTaggedForCurrentClustertype(m2, c)
    {
      SameTagsSameClusterTag(m1, m2, c);
    }
    SameTagsSameClusterTag(m1, m2, clusterType);
  }

  lemma SameTagsSameClusterTag(m1: Manifest, m2: Manifest, clusterType: string)
    requires forall t :: t in m1.tags <==> t in m2.tags
    ensures IsTaggedForCurrentClustertype(m1, clusterType) == IsTaggedForCurrentClustertype(m2, clusterType)
  {
    if IsTaggedForCurrentClustertype(m1, clusterType) {
      var tag :| tag in m1.tags && HasPrefix(tag, clusterType + "-");
      assert tag in m2.tags;
    }
    if IsTaggedForCurrentClustertype(m2, clusterType) {
      var tag :| tag in m2.tags && HasPrefix(tag, clusterType + "-");
      assert tag in m1.tags;
    }
  }

  /** The source's example of a manifest tagged only `jl5mh`: tagged for no
      cluster type. */
  lemma TagExampleBare(digest: string, timestamp: int)
    ensures IsNotTaggedForAnyClustertype(Manifest(digest, ["jl5mh"], timestamp))
  {
    var bare := Manifest(digest, ["jl5mh"], timestamp);
    forall c | c in ClusterTypes
      ensures !IsTaggedForCurrentClustertype(bare, c)
    {
      // every prefix `<c>-` is longer than the tag itself
      assert |"jl5mh"| < |c + "-"|;
    }
  }

  /** The source's examples: adding `<clusterType>-jl5mh` to `jl5mh` makes the
      manifest tagged for that cluster type, and so no longer tagged for none. */
  lemma TagExampleTagged(digest: string, timestamp: int, clusterType: string)
    requires clusterType in ClusterTypes
    ensures IsTaggedForCurrentClustertype(Manifest(digest, ["jl5mh", clusterType + "-jl5mh"], timestamp), clusterType)
    ensures !IsNotTaggedForAnyClustertype(Manifest(digest, ["jl5mh", clusterType + "-jl5mh"], timestamp))
  {
    var m := Manifest(digest, ["jl5mh", clusterType + "-jl5mh"], timestamp);
    assert clusterType + "-jl5mh" == (clusterType + "-") + "jl5mh";
    assert HasPrefix(m.tags[1], clusterType + "-");
  }

  /** Timestamps do not decrease from front to back. */
  predicate SortedByTimestamp(ms: seq<Manifest>)
  {
    forall i, j :: 0 <= i < j < |ms| ==> ms[i].timestamp <= ms[j].timestamp
  }

  /** The position of an oldest manifest among `manifests[from..]`. */
  method OldestFrom(manifests: array<Manifest>, from: nat) returns (least: nat)
    requires from < manifests.Length
    ensures from <= least < manifests.Length
    ensures forall q :: from <= q < manifests.Length ==> manifests[least].timestamp <= manifests[q].timestamp
  {
    least := from;
    for j := from + 1 to manifests.Length
      invariant from <= least < manifests.Length
      invariant forall q :: from <= q < j ==> manifests[least].timestamp <= manifests[q].timestamp
    {
      if manifests[j].timestamp < manifests[least].timestamp {
        least := j;
      }
    }
  }

  /** The sort step of decoding a listing: orders the manifests by timestamp in
      place. The order among equal timestamps is left open, as with an unstable
      sort. */
  method SortByTimestamp(manifests: array<Manifest>)
    modifies manifests
    ensures SortedByTimestamp(manifests[..])
    ensures multiset(manifests[..]) == multiset(old(manifests[..]))
  {
    for i := 0 to manifests.Length
      // the first `i` places hold the `i` oldest manifests, in order
      invariant forall p, q :: 0 <= p < q < manifests.Length && p < i ==> manifests[p].timestamp <= manifests[q].timestamp
      invariant multiset(manifests[..]) == multiset(old(manifests[..]))
    {
      var least := OldestFrom(manifests, i);
      manifests[i], manifests[least] := manifests[least], manifests[i];
    }
  }
}
