/** One cleanup pass over a container registry: for every repository that is
    not whitelisted, walk its manifests oldest first and delete those that the
    decision chain selects, counting each deletion per cluster type, repository
    and tagged label. The clock, the cluster listing, the registry listings and
    the delete command are inputs and outputs of the model, not I/O. */
module AcrCleanup {
  import opened Strings
  import opened Image
  import opened Manifests

  // ---------------------------------------------------------------------------
  // Whitelist and cluster references

  /** `isWhitelisted`: some whitelist entry equals the repository, ignoring
      case; the entries are tried front to back. */
  function IsWhitelisted(repository: string, whitelisted: seq<string>): (r: bool)
    ensures r <==> exists i :: 0 <= i < |whitelisted| && EqualFold(repository, whitelisted[i])
  {
    if |whitelisted| == 0 then false
    else if EqualFold(repository, whitelisted[0]) then true
    else IsWhitelisted(repository, whitelisted[1..])
  }

  /** A cluster image of the same repository (ignoring case) runs a tag that
      the manifest carries. */
  predicate ExistsInCluster(repository: string, m: Manifest, imagesInCluster: seq<Data>)
  {
    exists i :: 0 <= i < |imagesInCluster| &&
      EqualFold(imagesInCluster[i].repository, repository) && imagesInCluster[i].tag in m.tags
  }

  /** `manifestExistInCluster`: scans the cluster images with a flag and stops
      at the first image that references the manifest. */
  method ManifestExistInCluster(repository: string, m: Manifest, imagesInCluster: seq<Data>)
    returns (manifestExistInCluster: bool)
    ensures manifestExistInCluster <==> ExistsInCluster(repository, m, imagesInCluster)
  {
    manifestExistInCluster := false;
    var i := 0;
    while i < |imagesInCluster|
      invariant 0 <= i <= |imagesInCluster|
      invariant !manifestExistInCluster
      invariant forall k :: 0 <= k < i ==>
        !(EqualFold(imagesInCluster[k].repository, repository) && imagesInCluster[k].tag in m.tags)
    {
      var image := imagesInCluster[i];
      if EqualFold(image.repository, repository) {
        var contains := Contains(m, image.tag);
        if contains {
          manifestExistInCluster := true;
          break;
        }
      }
      i := i + 1;
    }
  }

  // ---------------------------------------------------------------------------
  // Images running in the cluster

  /** All component image strings of all deployments, deployment by deployment. */
  function Flatten(deployments: seq<seq<string>>): seq<string>
  {
    if |deployments| == 0 then []
    else Flatten(deployments[..|deployments| - 1]) + deployments[|deployments| - 1]
  }

  /** The image strings that parse, parsed, in their original order. */
  function ParsedImages(images: seq<string>): seq<Data>
  {
    if |images| == 0 then []
    else
      ParsedImages(images[..|images| - 1]) +
      match Parse(images[|images| - 1])
      case Some(d) => [d]
      case None => []
  }

  /** The filter loop over one deployment's components: unparsable image
      strings are dropped, the others appended to `images` in order. */
  method AppendParsedImages(images: seq<Data>, components: seq<string>) returns (r: seq<Data>)
    ensures r == images + ParsedImages(components)
  {
    r := images;
    for j := 0 to |components|
      invariant r == images + ParsedImages(components[..j])
    {
      var image := Parse(components[j]);
      assert components[..j + 1][..j] == components[..j];
      if image.None? {
        continue;
      }
      r := r + [image.value];
    }
    assert components[..|components|] == components;
  }

  /** The images running in the cluster: the parsable component images of
      every deployment, deployment by deployment. */
  method CollectImagesInCluster(deployments: seq<seq<string>>) returns (imagesInCluster: seq<Data>)
    ensures imagesInCluster == ParsedImages(Flatten(deployments))
  {
    imagesInCluster := [];
    for i := 0 to |deployments|
      invariant imagesInCluster == ParsedImages(Flatten(deployments[..i]))
    {
      imagesInCluster := AppendParsedImages(imagesInCluster, deployments[i]);
      assert deployments[..i + 1][..i] == deployments[..i];
      ParsedImagesAppend(Flatten(deployments[..i]), deployments[i]);
    }
    assert deployments[..|deployments|] == deployments;
  }

  /** A cluster image is exactly the parse of some image string. */
  lemma {:induction false} ParsedImagesMembership(images: seq<string>, d: Data)
    ensures d in ParsedImages(images) <==> exists k :: 0 <= k < |images| && Parse(images[k]) == Some(d)
  {
    if |images| > 0 {
      var init := images[..|images| - 1];
      ParsedImagesMembership(init, d);
      if exists k :: 0 <= k < |images| && Parse(images[k]) == Some(d) {
        var k :| 0 <= k < |images| && Parse(images[k]) == Some(d);
        if k < |images| - 1 {
          assert init[k] == images[k];
        }
      }
      if exists k :: 0 <= k < |init| && Parse(init[k]) == Some(d) {
        var k :| 0 <= k < |init| && Parse(init[k]) == Some(d);
        assert images[k] == init[k];
      }
    }
  }

  /** Parsing keeps the order: the images of a concatenation are the images of
      its parts, one after the other. */
  lemma {:induction false} ParsedImagesAppend(a: seq<string>, b: seq<string>)
    ensures ParsedImages(a + b) == ParsedImages(a) + ParsedImages(b)
  {
    if |b| == 0 {
      assert a + b == a;
    } else {
      var init := b[..|b| - 1];
      assert (a + b)[..|a + b| - 1] == a + init;
      ParsedImagesAppend(a, init);
    }
  }

  /** Parsing never adds images: there are at most as many as image strings,
      and exactly as many when every string parses. */
  lemma {:induction false} ParsedImagesLength(images: seq<string>)
    ensures |ParsedImages(images)| <= |images|
    ensures (forall k :: 0 <= k < |images| ==> Parse(images[k]).Some?) ==> |ParsedImages(images)| == |images|
  {
    if |images| > 0 {
      var init := images[..|images| - 1];
      ParsedImagesLength(init);
      if forall k :: 0 <= k < |images| ==> Parse(images[k]).Some? {
        assert forall k :: 0 <= k < |init| ==> init[k] == images[k];
      }
    }
  }

  // ---------------------------------------------------------------------------
  // The per-manifest decision chain

  /** Where a manifest leaves the decision chain. */
  datatype Verdict =
    | SkipNewerThanStart         // updated after the pass started
    | RetainUntaggedNotMandated  // tagged for no cluster type, and untagged deletion is off
    | DeleteUntagged             // untagged deletion is on and no cluster image references it
    | RetainOtherClusterType     // not tagged for the pass's cluster type
    | DeleteTagged               // tagged for the pass's cluster type and not referenced
    | RetainInCluster            // tagged for the pass's cluster type and referenced
  {
    predicate IsDelete() {
      this == DeleteUntagged || this == DeleteTagged
    }
  }

  /** The decision chain in the order the source tests it. The second test
      does not look at the tags: with untagged deletion on, every unreferenced
      manifest that got that far is deleted as "untagged". */
  function Decide(m: Manifest, repository: string, start: int, imagesInCluster: seq<Data>,
                  clusterType: string, deleteUntagged: bool): (r: Verdict)
    ensures r == SkipNewerThanStart <==> m.timestamp > start
    ensures r.IsDelete() ==> !ExistsInCluster(repository, m, imagesInCluster)
    ensures r == DeleteTagged ==> !deleteUntagged && IsTaggedForCurrentClustertype(m, clusterType)
  {
    if m.timestamp > start then SkipNewerThanStart
    else
      var existInCluster := ExistsInCluster(repository, m, imagesInCluster);
      if IsNotTaggedForAnyClustertype(m) && !deleteUntagged then RetainUntaggedNotMandated
      else if deleteUntagged && !existInCluster then DeleteUntagged
      else if !IsTaggedForCurrentClustertype(m, clusterType) then RetainOtherClusterType
      else if !existInCluster then DeleteTagged
      else RetainInCluster
  }

  /** Only a manifest newer than the pass start is skipped unevaluated; one
      whose timestamp equals the start is evaluated. */
  lemma DecideSkipsExactlyTheNewer(m: Manifest, repository: string, start: int, imagesInCluster: seq<Data>,
                                   clusterType: string, deleteUntagged: bool)
    ensures Decide(m, repository, start, imagesInCluster, clusterType, deleteUntagged) == SkipNewerThanStart
            <==> m.timestamp > start
  {
  }

  /** A deleted manifest is never newer than the pass start and never
      referenced by a cluster image. */
  lemma DecideDeletesOnlyOldUnreferenced(m: Manifest, repository: string, start: int, imagesInCluster: seq<Data>,
                                         clusterType: string, deleteUntagged: bool)
    requires Decide(m, repository, start, imagesInCluster, clusterType, deleteUntagged).IsDelete()
    ensures m.timestamp <= start
    ensures !ExistsInCluster(repository, m, imagesInCluster)
  {
  }

  /** With untagged deletion off, a manifest is deleted exactly when it is
      evaluated, tagged for some known cluster type, tagged for the pass's
      cluster type and unreferenced; it is then deleted as tagged. */
  lemma DecideWithoutUntaggedDeletion(m: Manifest, repository: string, start: int, imagesInCluster: seq<Data>,
                                      clusterType: string)
    ensures Decide(m, repository, start, imagesInCluster, clusterType, false).IsDelete() <==>
      && m.timestamp <= start
      && !IsNotTaggedForAnyClustertype(m)
      && IsTaggedForCurrentClustertype(m, clusterType)
      && !ExistsInCluster(repository, m, imagesInCluster)
    ensures Decide(m, repository, start, imagesInCluster, clusterType, false) != DeleteUntagged
  {
  }

  /** For one of the known cluster types the condition simplifies: with
      untagged deletion off, a manifest is deleted exactly when it is evaluated,
      tagged `<clusterType>-...` and unreferenced. Untagged manifests and those
      tagged only for other cluster types stay. */
  lemma DecideWithoutUntaggedDeletionKnownType(m: Manifest, repository: string, start: int,
                                               imagesInCluster: seq<Data>, clusterType: string)
    requires clusterType in ClusterTypes
    ensures Decide(m, repository, start, imagesInCluster, clusterType, false).IsDelete() <==>
      m.timestamp <= start && IsTaggedForCurrentClustertype(m, clusterType)
      && !ExistsInCluster(repository, m, imagesInCluster)
    ensures Decide(m, repository, start, imagesInCluster, clusterType, false).IsDelete() ==>
      Decide(m, repository, start, imagesInCluster, clusterType, false) == DeleteTagged
  {
    DecideWithoutUntaggedDeletion(m, repository, start, imagesInCluster, clusterType);
  }

  /** With untagged deletion on, every evaluated, unreferenced manifest is
      deleted as untagged, whatever its tags, and the tagged deletion is never
      reached. */
  lemma DecideWithUntaggedDeletion(m: Manifest, repository: string, start: int, imagesInCluster: seq<Data>,
                                   clusterType: string)
    ensures Decide(m, repository, start, imagesInCluster, clusterType, true) == DeleteUntagged <==>
      m.timestamp <= start && !ExistsInCluster(repository, m, imagesInCluster)
    ensures Decide(m, repository, start, imagesInCluster, clusterType, true) != DeleteTagged
  {
  }

  /** The second test is broader than its "untagged" label: with untagged
      deletion on, a manifest tagged only for another cluster type is deleted
      as untagged too. */
  lemma DecideDeletesOtherClusterTypeAsUntagged(digest: string, start: int)
    ensures Decide(Manifest(digest, ["production-v3"], start), "app", start, [], "development", true) == DeleteUntagged
    ensures Decide(Manifest(digest, ["production-v3"], start), "app", start, [], "development", false) == RetainOtherClusterType
  {
    var m := Manifest(digest, ["production-v3"], start);
    assert HasPrefix(m.tags[0], "production-");
    assert !IsNotTaggedForAnyClustertype(m) by { NotTaggedForAnyIff(m); }
    assert !HasPrefix("production-v3", "development-") by {
      assert "production-v3"[0] != "development-"[0];
    }
  }

  // ---------------------------------------------------------------------------
  // What one pass deletes

  /** A call of `deleteManifest`: the repository, the manifest and whether it
      was deleted as untagged. */
  datatype Deletion = Deletion(repository: string, manifest: Manifest, untagged: bool)

  /** The manifests the source lists for a repository; a repository without an
      entry has no manifests. */
  function ManifestsOf(manifests: map<string, seq<Manifest>>, repository: string): seq<Manifest>
  {
    if repository in manifests then manifests[repository] else []
  }

  /** The deletions of one repository, in the order of its manifests. */
  function RepoDeletions(repository: string, ms: seq<Manifest>, start: int, imagesInCluster: seq<Data>,
                         clusterType: string, deleteUntagged: bool): seq<Deletion>
  {
    if |ms| == 0 then []
    else
      var m := ms[|ms| - 1];
      var verdict := Decide(m, repository, start, imagesInCluster, clusterType, deleteUntagged);
      RepoDeletions(repository, ms[..|ms| - 1], start, imagesInCluster, clusterType, deleteUntagged) +
      if verdict.IsDelete() then [Deletion(repository, m, verdict == DeleteUntagged)] else []
  }

  /** The deletions of a pass: those of every repository that is not
      whitelisted, repository after repository. */
  function PassDeletions(repositories: seq<string>, manifests: map<string, seq<Manifest>>, whitelisted: seq<string>,
                         start: int, imagesInCluster: seq<Data>, clusterType: string, deleteUntagged: bool)
    : seq<Deletion>
  {
    if |repositories| == 0 then []
    else
      var repository := repositories[|repositories| - 1];
      PassDeletions(repositories[..|repositories| - 1], manifests, whitelisted, start, imagesInCluster,
                    clusterType, deleteUntagged) +
      if IsWhitelisted(repository, whitelisted) then []
      else RepoDeletions(repository, ManifestsOf(manifests, repository), start, imagesInCluster,
                         clusterType, deleteUntagged)
  }

  /** One more manifest adds its own deletion, if any, at the end. */
  lemma RepoDeletionsSnoc(repository: string, ms: seq<Manifest>, j: nat, start: int, imagesInCluster: seq<Data>,
                          clusterType: string, deleteUntagged: bool)
    requires j < |ms|
    ensures RepoDeletions(repository, ms[..j + 1], start, imagesInCluster, clusterType, deleteUntagged) ==
      RepoDeletions(repository, ms[..j], start, imagesInCluster, clusterType, deleteUntagged) +
      var verdict := Decide(ms[j], repository, start, imagesInCluster, clusterType, deleteUntagged);
      if verdict.IsDelete() then [Deletion(repository, ms[j], verdict == DeleteUntagged)] else []
  {
    assert ms[..j + 1][..j] == ms[..j];
  }

  /** One more repository adds its count and its deletions at the end, unless
      it is whitelisted. */
  lemma PassSnoc(repositories: seq<string>, i: nat, manifests: map<string, seq<Manifest>>, whitelisted: seq<string>,
                 start: int, imagesInCluster: seq<Data>, clusterType: string, deleteUntagged: bool)
    requires i < |repositories|
    ensures CountProcessed(repositories[..i + 1], whitelisted) ==
      CountProcessed(repositories[..i], whitelisted) + if IsWhitelisted(repositories[i], whitelisted) then 0 else 1
    ensures PassDeletions(repositories[..i + 1], manifests, whitelisted, start, imagesInCluster, clusterType, deleteUntagged) ==
      PassDeletions(repositories[..i], manifests, whitelisted, start, imagesInCluster, clusterType, deleteUntagged) +
      if IsWhitelisted(repositories[i], whitelisted) then []
      else RepoDeletions(repositories[i], ManifestsOf(manifests, repositories[i]), start, imagesInCluster,
                         clusterType, deleteUntagged)
  {
    assert repositories[..i + 1][..i] == repositories[..i];
  }

  /** A deletion of a repository is exactly a manifest of that repository for
      which the decision chain ends in a delete, with the matching label. */
  lemma {:induction false} RepoDeletionsMembership(repository: string, ms: seq<Manifest>, start: int,
                                                   imagesInCluster: seq<Data>, clusterType: string,
                                                   deleteUntagged: bool, d: Deletion)
    ensures d in RepoDeletions(repository, ms, start, imagesInCluster, clusterType, deleteUntagged) <==>
      && d.repository == repository
      && d.manifest in ms
      && Decide(d.manifest, repository, start, imagesInCluster, clusterType, deleteUntagged).IsDelete()
      && d.untagged == (Decide(d.manifest, repository, start, imagesInCluster, clusterType, deleteUntagged) == DeleteUntagged)
  {
    if |ms| > 0 {
      var init := ms[..|ms| - 1];
      RepoDeletionsMembership(repository, init, start, imagesInCluster, clusterType, deleteUntagged, d);
      assert ms == init + [ms[|ms| - 1]];
    }
  }

  /** A deletion of a pass is exactly a manifest of a listed, non-whitelisted
      repository for which the decision chain ends in a delete. */
  lemma {:induction false} PassDeletionsMembership(repositories: seq<string>, manifests: map<string, seq<Manifest>>,
                                                   whitelisted: seq<string>, start: int, imagesInCluster: seq<Data>,
                                                   clusterType: string, deleteUntagged: bool, d: Deletion)
    ensures d in PassDeletions(repositories, manifests, whitelisted, start, imagesInCluster, clusterType, deleteUntagged) <==>
      && d.repository in repositories
      && !IsWhitelisted(d.repository, whitelisted)
      && d.manifest in ManifestsOf(manifests, d.repository)
      && Decide(d.manifest, d.repository, start, imagesInCluster, clusterType, deleteUntagged).IsDelete()
      && d.untagged == (Decide(d.manifest, d.repository, start, imagesInCluster, clusterType, deleteUntagged) == DeleteUntagged)
  {
    if |repositories| > 0 {
      var init := repositories[..|repositories| - 1];
      var repository := repositories[|repositories| - 1];
      PassDeletionsMembership(init, manifests, whitelisted, start, imagesInCluster, clusterType, deleteUntagged, d);
      RepoDeletionsMembership(repository, ManifestsOf(manifests, repository), start, imagesInCluster,
                              clusterType, deleteUntagged, d);
      assert repositories == init + [repository];
    }
  }

  /** What a pass deletes is never whitelisted, never newer than the pass
      start and never referenced by a cluster image. */
  lemma PassDeletionsAreSafe(repositories: seq<string>, manifests: map<string, seq<Manifest>>,
                             whitelisted: seq<string>, start: int, imagesInCluster: seq<Data>,
                             clusterType: string, deleteUntagged: bool, d: Deletion)
    requires d in PassDeletions(repositories, manifests, whitelisted, start, imagesInCluster, clusterType, deleteUntagged)
    ensures !IsWhitelisted(d.repository, whitelisted)
    ensures d.manifest.timestamp <= start
    ensures !ExistsInCluster(d.repository, d.manifest, imagesInCluster)
  {
    PassDeletionsMembership(repositories, manifests, whitelisted, start, imagesInCluster, clusterType, deleteUntagged, d);
  }

  /** The label of every deletion of a pass is fixed by the flag: all are
      untagged deletions when untagged deletion is on, all tagged otherwise. */
  lemma PassDeletionsLabel(repositories: seq<string>, manifests: map<string, seq<Manifest>>,
                           whitelisted: seq<string>, start: int, imagesInCluster: seq<Data>,
                           clusterType: string, deleteUntagged: bool, d: Deletion)
    requires d in PassDeletions(repositories, manifests, whitelisted, start, imagesInCluster, clusterType, deleteUntagged)
    ensures d.untagged == deleteUntagged
  {
    PassDeletionsMembership(repositories, manifests, whitelisted, start, imagesInCluster, clusterType, deleteUntagged, d);
    if deleteUntagged {
      DecideWithUntaggedDeletion(d.manifest, d.repository, start, imagesInCluster, clusterType);
    } else {
      DecideWithoutUntaggedDeletion(d.manifest, d.repository, start, imagesInCluster, clusterType);
    }
  }

  // ---------------------------------------------------------------------------
  // The deleted-images counter and the delete commands

  /** A label set of the `radix_acr_images_deleted` counter vector. */
  datatype CounterKey = CounterKey(clusterType: string, repository: string, tagged: string)

  /** The deletion command `az acr repository delete --name <registry> --image <repository>@<digest>`. */
  datatype DeleteCommand = DeleteCommand(registry: string, repository: string, digest: string)

  /** The value of one counter cell; a cell never incremented reads 0. */
  function Count(counter: map<CounterKey, nat>, key: CounterKey): nat
  {
    if key in counter then counter[key] else 0
  }

  /** `Inc` on one cell of the counter vector. */
  function Inc(counter: map<CounterKey, nat>, key: CounterKey): (r: map<CounterKey, nat>)
    ensures Count(r, key) == Count(counter, key) + 1
    ensures forall k :: k != key ==> Count(r, k) == Count(counter, k)
    ensures r.Keys == counter.Keys + {key}
  {
    counter[key := Count(counter, key) + 1]
  }

  /** The value of the `tagged` label. */
  function TaggedLabel(untagged: bool): string
  {
    if untagged then "false" else "true"
  }

  function KeyOf(clusterType: string, d: Deletion): CounterKey
  {
    CounterKey(clusterType, d.repository, TaggedLabel(d.untagged))
  }

  /** The counter after counting each deletion once, in order. */
  function Counted(counter: map<CounterKey, nat>, clusterType: string, ds: seq<Deletion>): map<CounterKey, nat>
  {
    if |ds| == 0 then counter
    else Inc(Counted(counter, clusterType, ds[..|ds| - 1]), KeyOf(clusterType, ds[|ds| - 1]))
  }

  /** How many of the deletions fall on the counter cell `key`. */
  function Occurrences(ds: seq<Deletion>, clusterType: string, key: CounterKey): nat
  {
    if |ds| == 0 then 0
    else Occurrences(ds[..|ds| - 1], clusterType, key) + if KeyOf(clusterType, ds[|ds| - 1]) == key then 1 else 0
  }

  /** Every cell grows by the number of deletions that fall on it, and by
      nothing else. */
  lemma {:induction false} CountedAt(counter: map<CounterKey, nat>, clusterType: string, ds: seq<Deletion>, key: CounterKey)
    ensures Count(Counted(counter, clusterType, ds), key) == Count(counter, key) + Occurrences(ds, clusterType, key)
  {
    if |ds| > 0 {
      CountedAt(counter, clusterType, ds[..|ds| - 1], key);
    }
  }

  /** No deletion of a repository means no occurrence on its cells. */
  lemma {:induction false} OccurrencesOfAbsentRepository(ds: seq<Deletion>, clusterType: string, key: CounterKey)
    requires forall i :: 0 <= i < |ds| ==> ds[i].repository != key.repository
    ensures Occurrences(ds, clusterType, key) == 0
  {
    if |ds| > 0 {
      OccurrencesOfAbsentRepository(ds[..|ds| - 1], clusterType, key);
    }
  }

  /** The delete commands for the deletions, one per deletion, in order. */
  function Commands(registry: string, ds: seq<Deletion>): seq<DeleteCommand>
  {
    if |ds| == 0 then []
    else
      var d := ds[|ds| - 1];
      Commands(registry, ds[..|ds| - 1]) + [DeleteCommand(registry, d.repository, d.manifest.digest)]
  }

  /** The `i`-th command deletes the `i`-th deleted manifest from its repository. */
  lemma {:induction false} CommandsAt(registry: string, ds: seq<Deletion>)
    ensures |Commands(registry, ds)| == |ds|
    ensures forall i :: 0 <= i < |ds| ==>
      Commands(registry, ds)[i] == DeleteCommand(registry, ds[i].repository, ds[i].manifest.digest)
  {
    if |ds| > 0 {
      CommandsAt(registry, ds[..|ds| - 1]);
    }
  }

  /** The delete commands actually run: none in a dry run. */
  function Issued(registry: string, performDelete: bool, ds: seq<Deletion>): seq<DeleteCommand>
  {
    if performDelete then Commands(registry, ds) else []
  }

  lemma CountedSnoc(counter: map<CounterKey, nat>, clusterType: string, ds: seq<Deletion>, d: Deletion)
    ensures Counted(counter, clusterType, ds + [d]) == Inc(Counted(counter, clusterType, ds), KeyOf(clusterType, d))
  {
    assert (ds + [d])[..|ds|] == ds;
  }

  lemma IssuedSnoc(registry: string, performDelete: bool, ds: seq<Deletion>, d: Deletion)
    ensures Issued(registry, performDelete, ds + [d]) ==
      Issued(registry, performDelete, ds) + if performDelete then [DeleteCommand(registry, d.repository, d.manifest.digest)] else []
  {
    assert (ds + [d])[..|ds|] == ds;
  }

  lemma {:induction false} CountedAppend(counter: map<CounterKey, nat>, clusterType: string, a: seq<Deletion>, b: seq<Deletion>)
    ensures Counted(counter, clusterType, a + b) == Counted(Counted(counter, clusterType, a), clusterType, b)
  {
    if |b| == 0 {
      assert a + b == a;
    } else {
      assert (a + b)[..|a + b| - 1] == a + b[..|b| - 1];
      CountedAppend(counter, clusterType, a, b[..|b| - 1]);
    }
  }

  lemma {:induction false} IssuedAppend(registry: string, performDelete: bool, a: seq<Deletion>, b: seq<Deletion>)
    ensures Issued(registry, performDelete, a + b) == Issued(registry, performDelete, a) + Issued(registry, performDelete, b)
  {
    if performDelete && |b| > 0 {
      assert (a + b)[..|a + b| - 1] == a + b[..|b| - 1];
      IssuedAppend(registry, performDelete, a, b[..|b| - 1]);
    } else if |b| == 0 {
      assert a + b == a;
    }
  }

  /** Number of repositories a pass processes: those not whitelisted. */
  function CountProcessed(repositories: seq<string>, whitelisted: seq<string>): nat
  {
    if |repositories| == 0 then 0
    else
      CountProcessed(repositories[..|repositories| - 1], whitelisted) +
      if IsWhitelisted(repositories[|repositories| - 1], whitelisted) then 0 else 1
  }

  /** A pass never processes more repositories than listed, and processes
      all of them when none is whitelisted. */
  lemma {:induction false} CountProcessedBounds(repositories: seq<string>, whitelisted: seq<string>)
    ensures CountProcessed(repositories, whitelisted) <= |repositories|
    ensures (forall i :: 0 <= i < |repositories| ==> !IsWhitelisted(repositories[i], whitelisted))
            ==> CountProcessed(repositories, whitelisted) == |repositories|
    ensures (forall i :: 0 <= i < |repositories| ==> IsWhitelisted(repositories[i], whitelisted))
            ==> CountProcessed(repositories, whitelisted) == 0
  {
    if |repositories| > 0 {
      var init := repositories[..|repositories| - 1];
      CountProcessedBounds(init, whitelisted);
      assert forall i :: 0 <= i < |init| ==> init[i] == repositories[i];
    }
  }

  /** A whitelisted repository gets no delete command, and its counter cells
      keep their values through the pass. */
  lemma WhitelistedUntouched(repositories: seq<string>, manifests: map<string, seq<Manifest>>,
                             whitelisted: seq<string>, start: int, imagesInCluster: seq<Data>,
                             clusterType: string, deleteUntagged: bool, registry: string, performDelete: bool,
                             counter: map<CounterKey, nat>, key: CounterKey)
    requires IsWhitelisted(key.repository, whitelisted)
    ensures Count(Counted(counter, clusterType,
                          PassDeletions(repositories, manifests, whitelisted, start, imagesInCluster,
                                        clusterType, deleteUntagged)), key) == Count(counter, key)
    ensures forall c :: c in Issued(registry, performDelete,
                                    PassDeletions(repositories, manifests, whitelisted, start, imagesInCluster,
                                                  clusterType, deleteUntagged))
                        ==> !IsWhitelisted(c.repository, whitelisted)
  {
    var ds := PassDeletions(repositories, manifests, whitelisted, start, imagesInCluster, clusterType, deleteUntagged);
    forall i | 0 <= i < |ds|
      ensures !IsWhitelisted(ds[i].repository, whitelisted)
    {
      PassDeletionsAreSafe(repositories, manifests, whitelisted, start, imagesInCluster, clusterType,
                           deleteUntagged, ds[i]);
    }
    OccurrencesOfAbsentRepository(ds, clusterType, key);
    CountedAt(counter, clusterType, ds, key);
    CommandsAt(registry, ds);
  }

  /** One more deletion counts its cell once more and, unless in a dry run,
      issues its command after the earlier ones. */
  lemma DeletedStep(counter: map<CounterKey, nat>, middle: map<CounterKey, nat>, after: map<CounterKey, nat>,
                    commands: seq<DeleteCommand>, commandsMiddle: seq<DeleteCommand>, commandsAfter: seq<DeleteCommand>,
                    registry: string, performDelete: bool, clusterType: string, ds: seq<Deletion>, d: Deletion)
    requires middle == Counted(counter, clusterType, ds)
    requires after == Inc(middle, CounterKey(clusterType, d.repository, TaggedLabel(d.untagged)))
    requires commandsMiddle == commands + Issued(registry, performDelete, ds)
    requires commandsAfter == commandsMiddle +
      if performDelete then [DeleteCommand(registry, d.repository, d.manifest.digest)] else []
    ensures after == Counted(counter, clusterType, ds + [d])
    ensures commandsAfter == commands + Issued(registry, performDelete, ds + [d])
  {
    CountedSnoc(counter, clusterType, ds, d);
    IssuedSnoc(registry, performDelete, ds, d);
  }

  /** Counting one repository's deletions after the earlier ones counts their
      concatenation. */
  lemma CountedChain(counter: map<CounterKey, nat>, middle: map<CounterKey, nat>, after: map<CounterKey, nat>,
                     clusterType: string, ds: seq<Deletion>, more: seq<Deletion>)
    requires middle == Counted(counter, clusterType, ds)
    requires after == Counted(middle, clusterType, more)
    ensures after == Counted(counter, clusterType, ds + more)
  {
    CountedAppend(counter, clusterType, ds, more);
  }

  /** Issuing one repository's commands after the earlier ones issues those of
      their concatenation. */
  lemma IssuedChain(commands: seq<DeleteCommand>, middle: seq<DeleteCommand>, after: seq<DeleteCommand>,
                    registry: string, performDelete: bool, ds: seq<Deletion>, more: seq<Deletion>)
    requires middle == commands + Issued(registry, performDelete, ds)
    requires after == middle + Issued(registry, performDelete, more)
    ensures after == commands + Issued(registry, performDelete, ds + more)
  {
    IssuedAppend(registry, performDelete, ds, more);
  }

  // ---------------------------------------------------------------------------
  // The stateful pass

  /** The state one pass touches: the processed-repository count, the
      deleted-images counter vector and the delete commands run so far. */
  class Cleanup {
    var processedRepositories: nat
    var imagesDeleted: map<CounterKey, nat>
    var deleteCommands: seq<DeleteCommand>

    constructor ()
      ensures processedRepositories == 0 && imagesDeleted == map[] && deleteCommands == []
    {
      processedRepositories := 0;
      imagesDeleted := map[];
      deleteCommands := [];
    }

    /** `addImageDeleted`: one more tagged deletion for the repository. */
    method AddImageDeleted(clusterType: string, repository: string)
      modifies this`imagesDeleted
      ensures imagesDeleted == Inc(old(imagesDeleted), CounterKey(clusterType, repository, "true"))
    {
      imagesDeleted := Inc(imagesDeleted, CounterKey(clusterType, repository, "true"));
    }

    /** `addUntaggedImageDeleted`: one more untagged deletion for the repository. */
    method AddUntaggedImageDeleted(clusterType: string, repository: string)
      modifies this`imagesDeleted
      ensures imagesDeleted == Inc(old(imagesDeleted), CounterKey(clusterType, repository, "false"))
    {
      imagesDeleted := Inc(imagesDeleted, CounterKey(clusterType, repository, "false"));
    }

    /** `deleteManifest`: runs the delete command only when `performDelete` is
        set, and counts the deletion either way. A failing command changes
        nothing further. */
    method DeleteManifest(registry: string, repository: string, clusterType: string,
                          performDelete: bool, untagged: bool, m: Manifest)
      modifies this`imagesDeleted, this`deleteCommands
      ensures imagesDeleted == Inc(old(imagesDeleted), CounterKey(clusterType, repository, TaggedLabel(untagged)))
      ensures deleteCommands == old(deleteCommands) +
        if performDelete then [DeleteCommand(registry, repository, m.digest)] else []
    {
      if performDelete {
        deleteCommands := deleteCommands + [DeleteCommand(registry, repository, m.digest)];
      }
      if !untagged {
        AddImageDeleted(clusterType, repository);
      } else {
        AddUntaggedImageDeleted(clusterType, repository);
      }
    }

    /** The manifest loop of `deleteImagesBelongingTo` for one repository that
        is not whitelisted: each manifest goes through the decision chain, oldest
        first, and the selected ones are handed to `deleteManifest`. */
    method DeleteRepositoryImages(registry: string, clusterType: string, deleteUntagged: bool,
                                  performDelete: bool, start: int, imagesInCluster: seq<Data>,
                                  repository: string, repositoryManifests: seq<Manifest>)
      modifies this`imagesDeleted, this`deleteCommands
      ensures imagesDeleted == Counted(old(imagesDeleted), clusterType,
        RepoDeletions(repository, repositoryManifests, start, imagesInCluster, clusterType, deleteUntagged))
      ensures deleteCommands == old(deleteCommands) + Issued(registry, performDelete,
        RepoDeletions(repository, repositoryManifests, start, imagesInCluster, clusterType, deleteUntagged))
    {
      ghost var done: seq<Deletion> := [];
      for j := 0 to |repositoryManifests|
        invariant done == RepoDeletions(repository, repositoryManifests[..j], start, imagesInCluster,
                                        clusterType, deleteUntagged)
        invariant imagesDeleted == Counted(old(imagesDeleted), clusterType, done)
        invariant deleteCommands == old(deleteCommands) + Issued(registry, performDelete, done)
      {
        var m := repositoryManifests[j];
        ghost var verdict := Decide(m, repository, start, imagesInCluster, clusterType, deleteUntagged);
        RepoDeletionsSnoc(repository, repositoryManifests, j, start, imagesInCluster, clusterType, deleteUntagged);
        // If this manifest is newer than the start, the cluster images may be stale.
        if m.timestamp > start {
          assert verdict == SkipNewerThanStart;
          continue;
        }
        var manifestExistInCluster := ManifestExistInCluster(repository, m, imagesInCluster);
        var isNotTaggedForAnyClustertype := IsNotTaggedForAnyClustertype(m);
        if isNotTaggedForAnyClustertype && !deleteUntagged {
          assert verdict == RetainUntaggedNotMandated;
          continue;
        } else if deleteUntagged && !manifestExistInCluster {
          assert verdict == DeleteUntagged;
          ghost var countedBefore, commandsBefore := imagesDeleted, deleteCommands;
          DeleteManifest(registry, repository, clusterType, performDelete, true, m);
          DeletedStep(old(imagesDeleted), countedBefore, imagesDeleted, old(deleteCommands), commandsBefore,
                      deleteCommands, registry, performDelete, clusterType, done, Deletion(repository, m, true));
          done := done + [Deletion(repository, m, true)];
          continue;
        }
        var isTaggedForCurrentClustertype := IsTaggedForCurrentClustertype(m, clusterType);
        if !isTaggedForCurrentClustertype {
          assert verdict == RetainOtherClusterType;
          continue;
        }
        if !manifestExistInCluster {
          assert verdict == DeleteTagged;
          ghost var countedBefore, commandsBefore := imagesDeleted, deleteCommands;
          DeleteManifest(registry, repository, clusterType, performDelete, false, m);
          DeletedStep(old(imagesDeleted), countedBefore, imagesDeleted, old(deleteCommands), commandsBefore,
                      deleteCommands, registry, performDelete, clusterType, done, Deletion(repository, m, false));
          done := done + [Deletion(repository, m, false)];
        } else {
          assert verdict == RetainInCluster;
        }
      }
      assert repositoryManifests[..|repositoryManifests|] == repositoryManifests;
    }

    /** The repository loop of `deleteImagesBelongingTo`: whitelisted
        repositories are skipped, every other one is counted as processed and
        has its manifests put through `DeleteRepositoryImages`. */
    method DeleteRepositories(registry: string, clusterType: string, deleteUntagged: bool,
                              performDelete: bool, whitelisted: seq<string>, start: int,
                              imagesInCluster: seq<Data>, repositories: seq<string>,
                              manifests: map<string, seq<Manifest>>)
      modifies this
      ensures processedRepositories == old(processedRepositories) + CountProcessed(repositories, whitelisted)
      ensures imagesDeleted == Counted(old(imagesDeleted), clusterType,
        PassDeletions(repositories, manifests, whitelisted, start, imagesInCluster, clusterType, deleteUntagged))
      ensures deleteCommands == old(deleteCommands) + Issued(registry, performDelete,
        PassDeletions(repositories, manifests, whitelisted, start, imagesInCluster, clusterType, deleteUntagged))
    {
      ghost var done: seq<Deletion> := [];
      for i := 0 to |repositories|
        invariant processedRepositories == old(processedRepositories) + CountProcessed(repositories[..i], whitelisted)
        invariant done == PassDeletions(repositories[..i], manifests, whitelisted, start, imagesInCluster,
                                        clusterType, deleteUntagged)
        invariant imagesDeleted == Counted(old(imagesDeleted), clusterType, done)
        invariant deleteCommands == old(deleteCommands) + Issued(registry, performDelete, done)
      {
        var repository := repositories[i];
        PassSnoc(repositories, i, manifests, whitelisted, start, imagesInCluster, clusterType, deleteUntagged);
        if IsWhitelisted(repository, whitelisted) {
          continue;
        }
        var repositoryManifests := ManifestsOf(manifests, repository);
        ghost var repoDone := RepoDeletions(repository, repositoryManifests, start, imagesInCluster,
                                            clusterType, deleteUntagged);
        ghost var countedBefore := imagesDeleted;
        ghost var commandsBefore := deleteCommands;
        DeleteRepositoryImages(registry, clusterType, deleteUntagged, performDelete, start, imagesInCluster,
                               repository, repositoryManifests);
        CountedChain(old(imagesDeleted), countedBefore, imagesDeleted, clusterType, done, repoDone);
        IssuedChain(old(deleteCommands), commandsBefore, deleteCommands, registry, performDelete, done, repoDone);
        done := done + repoDone;
        processedRepositories := processedRepositories + 1;
      }
      assert repositories[..|repositories|] == repositories;
    }

    /** `deleteImagesBelongingTo`: one pass. `start` is the clock read at the
        start of the pass, `deployments` the component image strings of each
        deployment in the cluster, `repositories` the registry's repositories
        and `manifests` each repository's listing, oldest first. The counters
        and the commands run accumulate over passes; the processed-repository
        count starts again from zero. */
    method DeleteImagesBelongingTo(registry: string, clusterType: string, deleteUntagged: bool,
                                   performDelete: bool, whitelisted: seq<string>, start: int,
                                   deployments: seq<seq<string>>, repositories: seq<string>,
                                   manifests: map<string, seq<Manifest>>)
      modifies this
      ensures processedRepositories == CountProcessed(repositories, whitelisted)
      ensures imagesDeleted == Counted(old(imagesDeleted), clusterType,
        PassDeletions(repositories, manifests, whitelisted, start, ParsedImages(Flatten(deployments)),
                      clusterType, deleteUntagged))
      ensures deleteCommands == old(deleteCommands) + Issued(registry, performDelete,
        PassDeletions(repositories, manifests, whitelisted, start, ParsedImages(Flatten(deployments)),
                      clusterType, deleteUntagged))
    {
      var imagesInCluster := CollectImagesInCluster(deployments);
      processedRepositories := 0;
      DeleteRepositories(registry, clusterType, deleteUntagged, performDelete, whitelisted, start,
                         imagesInCluster, repositories, manifests);
    }
  }
}
