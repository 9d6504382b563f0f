/** The image reference parser: a container image string
    `<registry>/<repository>:<tag>` is taken apart into its three parts. */
module Image {
  import opened Strings

  datatype Option<T> = None | Some(value: T)

  /** The parts of a container image reference. */
  datatype Data = Data(registry: string, repository: string, tag: string)

  /** `Parse` as the source writes it: split on `/`, give up when there is no
      `/`; split the second `/`-piece on `:`, give up when it has no `:`; the
      registry is the first `/`-piece, repository and tag the first two
      `:`-pieces. Later pieces are ignored. */
  function Parse(image: string): (r: Option<Data>)
    ensures '/' !in image ==> r.None?
    ensures r.Some? ==> r.value.registry + "/" <= image
  {
    SplitSingle(image, '/');
    SplitHead(image, '/');
    var imageRepository := Split(image, '/');
    if |imageRepository| == 1 then None
    else
      var imageTag := Split(imageRepository[1], ':');
      if |imageTag| == 1 then None
      else Some(Data(imageRepository[0], imageTag[0], imageTag[1]))
  }

  /** The second `/`-segment of an image string: after the first `/` and up to
      the next `/` or the end. */
  function Segment(image: string): string
  {
    TakeUntil(DropThrough(image, '/'), '/')
  }

  /** `Parse` agrees with a definition by first occurrences: nothing without a
      `/`, nothing when the second segment has no `:`, otherwise the registry is
      the text before the first `/`, the repository the segment up to its first
      `:`, and the tag the text between the segment's first and second `:`. */
  lemma ParseSpec(image: string)
    ensures Parse(image) ==
      if '/' !in image || ':' !in Segment(image) then None
      else Some(Data(TakeUntil(image, '/'),
                     TakeUntil(Segment(image), ':'),
                     TakeUntil(DropThrough(Segment(image), ':'), ':')))
  {
    SplitSingle(image, '/');
    if '/' in image {
      SplitHead(image, '/');
      SplitSecond(image, '/');
      var segment := Segment(image);
      assert Split(image, '/')[1] == segment;
      SplitSingle(segment, ':');
      if ':' in segment {
        SplitHead(segment, ':');
        SplitSecond(segment, ':');
      }
    }
  }

  /** A reference parses to nothing exactly when it has no `/` or its second
      segment has no `:`. */
  lemma ParseNoneIff(image: string)
    ensures Parse(image).None? <==> '/' !in image || ':' !in Segment(image)
  {
    ParseSpec(image);
  }

  /** No field of a parsed reference contains `/`, and neither repository nor
      tag contains `:`. */
  lemma ParseFieldsClean(image: string)
    requires Parse(image).Some?
    ensures '/' !in Parse(image).value.registry
    ensures '/' !in Parse(image).value.repository && ':' !in Parse(image).value.repository
    ensures '/' !in Parse(image).value.tag && ':' !in Parse(image).value.tag
  {
    ParseSpec(image);
    var segment := Segment(image);
    var afterColon := DropThrough(segment, ':');
    assert segment == TakeUntil(segment, ':') + [':'] + afterColon;
    assert TakeUntil(afterColon, ':') <= afterColon;
  }

  /** `Parse` by the first-occurrence definition, for a reference whose parts
      have already been located. */
  lemma ParseFromParts(image: string, registry: string, repository: string, tag: string)
    requires '/' in image && TakeUntil(image, '/') == registry
    requires ':' in Segment(image) && TakeUntil(Segment(image), ':') == repository
    requires TakeUntil(DropThrough(Segment(image), ':'), ':') == tag
    ensures Parse(image) == Some(Data(registry, repository, tag))
  {
    ParseSpec(image);
  }

  /** The `/`-side of a decomposed reference: the registry is everything before
      the first `/`, and the segment is cut from the text after it. */
  lemma RegistryCut(registry: string, tail: string)
    requires '/' !in registry
    ensures '/' in registry + ['/'] + tail
    ensures TakeUntil(registry + ['/'] + tail, '/') == registry
    ensures Segment(registry + ['/'] + tail) == TakeUntil(tail, '/')
  {
    CutAtFirst(registry, tail, '/');
    assert (registry + ['/'] + tail)[|registry|] == '/';
  }

  /** The `:`-side of a decomposed segment: repository before the first `:`,
      tag up to the next `:` or the end. */
  lemma SegmentCut(repository: string, tag: string, more: string)
    requires ':' !in repository && ':' !in tag
    requires more == [] || more[0] == ':'
    ensures ':' in repository + [':'] + tag + more
    ensures TakeUntil(repository + [':'] + tag + more, ':') == repository
    ensures TakeUntil(DropThrough(repository + [':'] + tag + more, ':'), ':') == tag
  {
    assert repository + [':'] + tag + more == repository + [':'] + (tag + more);
    CutAtFirst(repository, tag + more, ':');
    assert (repository + [':'] + (tag + more))[|repository|] == ':';
    TakeUntilAppend(tag, more, ':');
    assert tag + [] == tag;
  }

  /** Whatever follows the tag, after a `:` or a `/`, is ignored. */
  lemma ParseDecomposition(registry: string, repository: string, tag: string, rest: string)
    requires '/' !in registry
    requires '/' !in repository && ':' !in repository
    requires '/' !in tag && ':' !in tag
    requires rest == [] || rest[0] == ':' || rest[0] == '/'
    ensures Parse(registry + "/" + repository + ":" + tag + rest) == Some(Data(registry, repository, tag))
  {
    var image := registry + ['/'] + (repository + [':'] + tag + rest);
    assert registry + "/" + repository + ":" + tag + rest == image;
    ParseAssembled(image, registry, repository, tag, rest);
  }

  /** The segment of `registry/head rest` when neither `registry` nor `head`
      contains `/`. */
  lemma SegmentOfAssembled(registry: string, head: string, rest: string)
    requires '/' !in registry && '/' !in head
    ensures '/' in registry + ['/'] + (head + rest)
    ensures TakeUntil(registry + ['/'] + (head + rest), '/') == registry
    ensures Segment(registry + ['/'] + (head + rest)) == head + TakeUntil(rest, '/')
  {
    RegistryCut(registry, head + rest);
    TakeUntilAppend(head, rest, '/');
  }

  lemma ParseAssembled(image: string, registry: string, repository: string, tag: string, rest: string)
    requires '/' !in registry
    requires '/' !in repository && ':' !in repository
    requires '/' !in tag && ':' !in tag
    requires rest == [] || rest[0] == ':' || rest[0] == '/'
    requires image == registry + ['/'] + (repository + [':'] + tag + rest)
    ensures Parse(image) == Some(Data(registry, repository, tag))
  {
    var more := TakeUntil(rest, '/');
    var segment := repository + [':'] + tag + more;
    assert '/' in image && TakeUntil(image, '/') == registry && Segment(image) == segment by {
      SegmentOfAssembled(registry, repository + [':'] + tag, rest);
    }
    assert ':' in segment && TakeUntil(segment, ':') == repository
        && TakeUntil(DropThrough(segment, ':'), ':') == tag by {
      SegmentCut(repository, tag, more);
    }
    ParseFromParts(image, registry, repository, tag);
  }

  /** Round trip: a reference assembled from clean parts parses back to them. */
  lemma ParseRoundTrip(registry: string, repository: string, tag: string)
    requires '/' !in registry
    requires '/' !in repository && ':' !in repository
    requires '/' !in tag && ':' !in tag
    ensures Parse(registry + "/" + repository + ":" + tag) == Some(Data(registry, repository, tag))
  {
    ParseDecomposition(registry, repository, tag, "");
    assert registry + "/" + repository + ":" + tag + "" == registry + "/" + repository + ":" + tag;
  }

  /** The source's own example of a reference that parses. */
  lemma ParseExampleRelevant()
    ensures Parse("repo.azurecr.io/some-repo:some-tag") == Some(Data("repo.azurecr.io", "some-repo", "some-tag"))
  {
    assert "repo.azurecr.io/some-repo:some-tag" == "repo.azurecr.io" + "/" + "some-repo" + ":" + "some-tag";
    ParseRoundTrip("repo.azurecr.io", "some-repo", "some-tag");
  }

  /** A reference `registry/repository` without a tag parses to nothing. */
  lemma ParseWithoutTag(registry: string, repository: string)
    requires '/' !in registry
    requires '/' !in repository && ':' !in repository
    ensures Parse(registry + "/" + repository) == None
  {
    var image := registry + ['/'] + repository;
    assert registry + "/" + repository == image;
    ParseAssembledWithoutTag(image, registry, repository);
  }

  lemma ParseAssembledWithoutTag(image: string, registry: string, repository: string)
    requires '/' !in registry
    requires '/' !in repository && ':' !in repository
    requires image == registry + ['/'] + repository
    ensures Parse(image) == None
  {
    assert '/' in image && ':' !in Segment(image) by {
      RegistryCut(registry, repository);
      TakeUntilAppend(repository, [], '/');
      assert repository + [] == repository;
    }
    ParseNoneIff(image);
  }

  /** A reference without any `/` parses to nothing. */
  lemma ParseWithoutSlash(image: string)
    requires '/' !in image
    ensures Parse(image) == None
  {
    SplitSingle(image, '/');
  }

  /** The source's examples of references that do not parse: no `:` in the
      second segment, and no `/` at all. */
  lemma ParseExamplesIrrelevant()
    ensures Parse("repo.azurecr.io/some-repo") == None
    ensures Parse("some-repo:some-tag") == None
  {
    assert "repo.azurecr.io/some-repo" == "repo.azurecr.io" + "/" + "some-repo";
    ParseWithoutTag("repo.azurecr.io", "some-repo");
    ParseWithoutSlash("some-repo:some-tag");
  }
}
