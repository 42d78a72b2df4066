/**
 * The earlier revision of content selection (package content): the
 * intermediate content is found and filtered as in the current revision but
 * through an abstract includer, and builder or external content is copied
 * out of a mounted image source by source.
 */
module EarlierContent {

  import opened Wrappers
  import Paths
  import Layers
  import Archive

  /** An includer: a path filter and the source paths it was built from. */
  datatype Includer = Includer(includes: string -> bool, sources: seq<string>)

  datatype Error =
    | ErrLayer(cause: Layers.LayerError)
    | ErrDiff(parent: string, layer: string)
    | ErrRead
    | ErrImageNotFound(pullspec: string)
    | ErrMount
    | ErrStat(path: string)

  type Differ = (string, string) -> Option<Archive.Stream>

  // ---------------------------------------------------------------------------
  // Intermediate content
  // ---------------------------------------------------------------------------

  /** saveDiff of this revision: the accepted entries in stream order; a read error is returned as it is. */
  function SaveDiff(includer: Includer, dest: string, stream: Archive.Stream): (r: Result<Archive.Saved, Error>)
    ensures r.Failure? <==> stream.readError
    ensures r.Failure? ==> r.error == ErrRead
    ensures r.Success? ==> forall i :: 0 <= i < |r.value.included| ==> includer.includes(r.value.included[i])
    ensures r.Success? ==> forall k :: 0 <= k < |stream.entries| && includer.includes(stream.entries[k].name) ==>
      stream.entries[k].name in r.value.included
  {
    if stream.readError then Failure(ErrRead)
    else Success(Archive.Extract(includer.includes, dest, stream.entries))
  }

  /**
   * GetIntermediateContent: the filtered diff between the last intermediate layer and
   * the builder layer, if there is one; `listing` is None when the store cannot list its images.
   */
  function GetIntermediateContent(
    store: Layers.Store,
    listing: Option<seq<Layers.Image>>,
    builderImage: Layers.Image,
    includer: Includer,
    path: string,
    diff: Differ
  ): (r: Result<Archive.Saved, Error>)
    ensures builderImage.topLayer !in store ==> r == Failure(ErrLayer(Layers.ErrStorage(builderImage.topLayer)))
    ensures builderImage.topLayer in store && listing.None? ==> r == Failure(ErrLayer(Layers.ErrListImages))
    ensures r.Success? ==> forall i :: 0 <= i < |r.value.included| ==> includer.includes(r.value.included[i])
    ensures builderImage.topLayer in store && listing.Some? &&
            Layers.LastIntermediateLayer(store, builderImage.topLayer, listing.value) == Success(None)
      ==> r == Success(Archive.Saved([], []))
  {
    var builder := builderImage.topLayer;
    if builder !in store then Failure(ErrLayer(Layers.ErrStorage(builder)))
    else if listing.None? then Failure(ErrLayer(Layers.ErrListImages))
    else
      var last := Layers.LastIntermediateLayer(store, builder, listing.value);
      if last.Failure? then Failure(ErrLayer(last.error))
      else if last.value.None? then Success(Archive.Saved([], []))
      else
        var layer := last.value.value;
        match diff(builder, layer)
        case None => Failure(ErrDiff(builder, layer))
        case Some(stream) => SaveDiff(includer, path, stream)
  }

  /** With no candidate image, no diff is taken: any two diff functions give the same, empty, result. */
  lemma NoIntermediateNoDiff(
    store: Layers.Store,
    images: seq<Layers.Image>,
    builderImage: Layers.Image,
    includer: Includer,
    path: string,
    diff1: Differ,
    diff2: Differ
  )
    requires builderImage.topLayer in store
    requires Layers.Candidates(store, builderImage.topLayer, images).Success?
    requires Layers.CandidateTops(store, builderImage.topLayer, images) == []
    ensures GetIntermediateContent(store, Some(images), builderImage, includer, path, diff1) == Success(Archive.Saved([], []))
    ensures GetIntermediateContent(store, Some(images), builderImage, includer, path, diff1)
         == GetIntermediateContent(store, Some(images), builderImage, includer, path, diff2)
  {
    Layers.LastIntermediateChoice(store, builderImage.topLayer, images);
  }

  // ---------------------------------------------------------------------------
  // Image content
  // ---------------------------------------------------------------------------

  /** What a stat of a source inside the mounted image reports. */
  datatype FileInfo = Missing | Directory | RegularFile | OtherFile | StatFailed

  /** The mounted image, by source path. */
  type Tree = string -> FileInfo

  /** Copying a directory tree, or one file, out of the mounted image. */
  datatype CopyEffect =
    | CopyTree(dest: string, from: string)
    | CopyFile(from: string, dest: string)

  datatype ImageCopy = ImageCopy(included: seq<string>, effects: seq<CopyEffect>)

  /** How one existing source is copied below the content directory. */
  type Placement = (string, string, FileInfo) -> seq<CopyEffect>

  /** As written: a directory's contents land in the content directory itself, a file at its own path below it. */
  function PlaceAsWritten(contentPath: string, src: string, info: FileInfo): seq<CopyEffect> {
    match info
    case Directory => [CopyTree(contentPath, src)]
    case RegularFile => [CopyFile(src, Paths.Join(contentPath, src))]
    case _ => []
  }

  /** As intended (and as the current revision does it): every source lands at its own path below the content directory. */
  function Place(contentPath: string, src: string, info: FileInfo): (r: seq<CopyEffect>)
    ensures forall x :: x in r ==> x.from == src && x.dest == Paths.Join(contentPath, src)
    ensures r == [] <==> info != Directory && info != RegularFile
  {
    match info
    case Directory => [CopyTree(Paths.Join(contentPath, src), src)]
    case RegularFile => [CopyFile(src, Paths.Join(contentPath, src))]
    case _ => []
  }

  /** The sources present in the image (neither missing nor failing to stat), in source order. */
  function Existing(tree: Tree, sources: seq<string>): (r: seq<string>)
    decreases |sources|
  {
    if sources == [] then []
    else
      var init := sources[..|sources| - 1];
      var last := sources[|sources| - 1];
      Existing(tree, init) + (if tree(last) != Missing && tree(last) != StatFailed then [last] else [])
  }

  /** The copy effects of the given sources placed one after another. */
  function Placed(tree: Tree, sources: seq<string>, contentPath: string, place: Placement): seq<CopyEffect>
    decreases |sources|
  {
    if sources == [] then []
    else place(contentPath, sources[0], tree(sources[0])) + Placed(tree, sources[1..], contentPath, place)
  }

  /** Existing, peeled from the front: the first source leads the list when it exists. */
  lemma {:induction false} ExistingCons(tree: Tree, sources: seq<string>)
    requires |sources| > 0
    ensures Existing(tree, sources)
         == (if tree(sources[0]) != Missing && tree(sources[0]) != StatFailed then [sources[0]] else [])
            + Existing(tree, sources[1..])
    decreases |sources|
  {
    var head := if tree(sources[0]) != Missing && tree(sources[0]) != StatFailed then [sources[0]] else [];
    if |sources| == 1 {
      assert sources[1..] == [] && sources[..0] == [];
      assert Existing(tree, sources) == [] + head;
    } else {
      var init := sources[..|sources| - 1];
      var last := sources[|sources| - 1];
      var tailOwn := if tree(last) != Missing && tree(last) != StatFailed then [last] else [];
      ExistingCons(tree, init);
      assert init[0] == sources[0] && init[1..] == sources[1..][..|sources[1..]| - 1];
      assert sources[1..][|sources[1..]| - 1] == last;
      assert Existing(tree, sources[1..]) == Existing(tree, init[1..]) + tailOwn;
      calc {
        Existing(tree, sources);
        Existing(tree, init) + tailOwn;
        (head + Existing(tree, init[1..])) + tailOwn;
        head + (Existing(tree, init[1..]) + tailOwn);
        head + Existing(tree, sources[1..]);
      }
    }
  }

  /** Existing keeps exactly the present sources, and no more of them than there are sources. */
  lemma {:induction false} ExistingMembers(tree: Tree, sources: seq<string>)
    ensures |Existing(tree, sources)| <= |sources|
    ensures forall i :: 0 <= i < |Existing(tree, sources)| ==>
      Existing(tree, sources)[i] in sources && tree(Existing(tree, sources)[i]) != Missing
    ensures forall k :: 0 <= k < |sources| && tree(sources[k]) != Missing && tree(sources[k]) != StatFailed ==>
      sources[k] in Existing(tree, sources)
    decreases |sources|
  {
    if sources != [] {
      var init := sources[..|sources| - 1];
      ExistingMembers(tree, init);
      assert forall k :: 0 <= k < |init| ==> init[k] == sources[k];
      assert forall x :: x in init ==> x in sources;
    }
  }

  /** Every effect of placed sources comes from placing one of them. */
  lemma {:induction false} PlacedMembers(tree: Tree, xs: seq<string>, contentPath: string, place: Placement)
    ensures forall x :: x in Placed(tree, xs, contentPath, place) ==>
      exists k :: 0 <= k < |xs| && x in place(contentPath, xs[k], tree(xs[k]))
    decreases |xs|
  {
    if xs != [] {
      PlacedMembers(tree, xs[1..], contentPath, place);
      assert Placed(tree, xs, contentPath, place)
          == place(contentPath, xs[0], tree(xs[0])) + Placed(tree, xs[1..], contentPath, place);
      forall x | x in Placed(tree, xs, contentPath, place)
        ensures exists k :: 0 <= k < |xs| && x in place(contentPath, xs[k], tree(xs[k]))
      {
        if x !in place(contentPath, xs[0], tree(xs[0])) {
          var k :| 0 <= k < |xs[1..]| && x in place(contentPath, xs[1..][k], tree(xs[1..][k]));
          assert xs[k + 1] == xs[1..][k];
        }
      }
    }
  }

  /** The effects of the present sources each come from placing one of the sources. */
  lemma EffectsFromSources(tree: Tree, sources: seq<string>, contentPath: string, place: Placement)
    ensures forall x :: x in Placed(tree, Existing(tree, sources), contentPath, place) ==>
      exists k :: 0 <= k < |sources| && x in place(contentPath, sources[k], tree(sources[k]))
  {
    var xs := Existing(tree, sources);
    ExistingMembers(tree, sources);
    PlacedMembers(tree, xs, contentPath, place);
    forall x | x in Placed(tree, xs, contentPath, place)
      ensures exists k :: 0 <= k < |sources| && x in place(contentPath, sources[k], tree(sources[k]))
    {
      var i :| 0 <= i < |xs| && x in place(contentPath, xs[i], tree(xs[i]));
      var k :| 0 <= k < |sources| && sources[k] == xs[i];
    }
  }

  /**
   * The source loop of getImageContent: a source missing from the image is
   * skipped, the first stat failure stops the loop, and every existing source
   * is reported verbatim, in order, whatever its type, with its copy effects.
   */
  function CopyEach(tree: Tree, sources: seq<string>, contentPath: string, place: Placement): (r: Result<ImageCopy, Error>)
    ensures r.Success? <==> forall k :: 0 <= k < |sources| ==> tree(sources[k]) != StatFailed
    ensures r.Failure? ==> exists k :: (0 <= k < |sources| && tree(sources[k]) == StatFailed && r.error == ErrStat(sources[k])
                                        && forall j :: 0 <= j < k ==> tree(sources[j]) != StatFailed)
    ensures r.Success? ==> r.value.included == Existing(tree, sources)
    ensures r.Success? ==> r.value.effects == Placed(tree, Existing(tree, sources), contentPath, place)
    decreases |sources|
  {
    if sources == [] then Success(ImageCopy([], []))
    else
      var src := sources[0];
      var info := tree(src);
      if info == StatFailed then Failure(ErrStat(src))
      else
        var rest := CopyEach(tree, sources[1..], contentPath, place);
        assert forall k :: 1 <= k < |sources| ==> sources[k] == sources[1..][k - 1];
        if rest.Failure? then rest
        else
          ExistingCons(tree, sources);
          if info == Missing then rest
          else Success(ImageCopy([src] + rest.value.included, place(contentPath, src, info) + rest.value.effects))
  }

  /**
   * The copy of an image's sources: it fails exactly when a stat fails, naming
   * the first such source; otherwise it includes the present sources, in order,
   * and every copy effect comes from placing one of them.
   */
  function CopySources(tree: Tree, sources: seq<string>, contentPath: string, place: Placement): (r: Result<ImageCopy, Error>)
    ensures r.Success? <==> forall k :: 0 <= k < |sources| ==> tree(sources[k]) != StatFailed
    ensures r.Failure? ==> exists k :: (0 <= k < |sources| && tree(sources[k]) == StatFailed && r.error == ErrStat(sources[k])
                                        && forall j :: 0 <= j < k ==> tree(sources[j]) != StatFailed)
    ensures r.Success? ==> r.value.included == Existing(tree, sources)
    ensures r.Success? ==> r.value.effects == Placed(tree, Existing(tree, sources), contentPath, place)
    ensures r.Success? ==> |r.value.included| <= |sources|
    ensures r.Success? ==> forall i :: 0 <= i < |r.value.included| ==>
      r.value.included[i] in sources && tree(r.value.included[i]) != Missing
    ensures r.Success? ==> forall k :: 0 <= k < |sources| && tree(sources[k]) != Missing ==> sources[k] in r.value.included
    ensures r.Success? ==> forall x :: x in r.value.effects ==>
      exists k :: 0 <= k < |sources| && x in place(contentPath, sources[k], tree(sources[k]))
  {
    ExistingMembers(tree, sources);
    EffectsFromSources(tree, sources, contentPath, place);
    CopyEach(tree, sources, contentPath, place)
  }

  /** getImageContent with the directory target corrected: mount the image, then copy each source. */
  function GetImageContent(mount: Option<Tree>, includer: Includer, contentPath: string): (r: Result<ImageCopy, Error>)
    ensures mount.None? ==> r == Failure(ErrMount)
    ensures r.Success? ==> forall x :: x in r.value.effects ==> x.dest == Paths.Join(contentPath, x.from)
    ensures r.Success? ==> forall i :: 0 <= i < |r.value.included| ==> r.value.included[i] in includer.sources
  {
    if mount.None? then Failure(ErrMount)
    else CopySources(mount.value, includer.sources, contentPath, Place)
  }

  /** getImageContent as written. */
  function GetImageContentAsWritten(mount: Option<Tree>, includer: Includer, contentPath: string): (r: Result<ImageCopy, Error>)
    ensures mount.None? ==> r == Failure(ErrMount)
    ensures r.Success? ==> forall i :: 0 <= i < |r.value.included| ==> r.value.included[i] in includer.sources
  {
    if mount.None? then Failure(ErrMount)
    else CopySources(mount.value, includer.sources, contentPath, PlaceAsWritten)
  }

  /**
   * Every directory source whose last name differs from the content
   * directory's is copied somewhere other than its own path below the content
   * directory; the two revisions name the same sources but place them apart.
   */
  lemma DirectoryCopiedToContentRoot(tree: Tree, includer: Includer, contentPath: string, k: nat)
    requires contentPath != ""
    requires forall j :: 0 <= j < |includer.sources| ==> tree(includer.sources[j]) != StatFailed
    requires k < |includer.sources| && tree(includer.sources[k]) == Directory
    requires !Paths.IsDirectoryElement(Paths.LastElement(includer.sources[k]))
    requires Paths.LastElement(includer.sources[k]) != Paths.LastElement(contentPath)
    ensures GetImageContentAsWritten(Some(tree), includer, contentPath).Success?
    ensures GetImageContent(Some(tree), includer, contentPath).Success?
    ensures GetImageContentAsWritten(Some(tree), includer, contentPath).value.included
         == GetImageContent(Some(tree), includer, contentPath).value.included
    ensures var src := includer.sources[k];
      && CopyTree(contentPath, src) in GetImageContentAsWritten(Some(tree), includer, contentPath).value.effects
      && contentPath != Paths.Join(contentPath, src)
  {
    var src := includer.sources[k];
    SameIncluded(tree, includer.sources, contentPath);
    AsWrittenCopiesTree(tree, includer.sources, contentPath, k);
    Paths.JoinKeepsLastName(contentPath, src);
  }

  /** The placement does not change which sources are reported. */
  lemma {:induction false} SameIncluded(tree: Tree, sources: seq<string>, contentPath: string)
    requires CopySources(tree, sources, contentPath, Place).Success?
    ensures CopySources(tree, sources, contentPath, PlaceAsWritten).Success?
    ensures CopySources(tree, sources, contentPath, PlaceAsWritten).value.included
         == CopySources(tree, sources, contentPath, Place).value.included
    decreases |sources|
  {
    if sources != [] {
      SameIncluded(tree, sources[1..], contentPath);
    }
  }

  lemma {:induction false} AsWrittenCopiesTree(tree: Tree, sources: seq<string>, contentPath: string, k: nat)
    requires CopySources(tree, sources, contentPath, PlaceAsWritten).Success?
    requires k < |sources| && tree(sources[k]) == Directory
    ensures CopyTree(contentPath, sources[k]) in CopySources(tree, sources, contentPath, PlaceAsWritten).value.effects
    decreases |sources|
  {
    AsWrittenStep(tree, sources, contentPath);
    if k > 0 {
      assert sources[1..][k - 1] == sources[k];
      AsWrittenCopiesTree(tree, sources[1..], contentPath, k - 1);
    }
  }

  /** One source of the copy loop as written: the rest succeeds, its effects are kept, and a directory is copied into the root. */
  lemma AsWrittenStep(tree: Tree, sources: seq<string>, contentPath: string)
    requires sources != [] && CopySources(tree, sources, contentPath, PlaceAsWritten).Success?
    ensures CopySources(tree, sources[1..], contentPath, PlaceAsWritten).Success?
    ensures forall x :: x in CopySources(tree, sources[1..], contentPath, PlaceAsWritten).value.effects ==>
      x in CopySources(tree, sources, contentPath, PlaceAsWritten).value.effects
    ensures tree(sources[0]) == Directory ==>
      CopyTree(contentPath, sources[0]) in CopySources(tree, sources, contentPath, PlaceAsWritten).value.effects
  {
  }

  // ---------------------------------------------------------------------------
  // Builder and external content
  // ---------------------------------------------------------------------------

  /** An image found in the store: its layers and, when it can be mounted, its file tree. */
  datatype StoredImage = StoredImage(image: Layers.Image, mount: Option<Tree>)

  type Lookup = string -> Option<StoredImage>

  /** GetExternalContent: the image's content for the includer, or an error naming the pullspec when it is not stored. */
  function GetExternalContent(lookup: Lookup, pullspec: string, includer: Includer, contentPath: string): (r: Result<ImageCopy, Error>)
    ensures lookup(pullspec).None? <==> r == Failure(ErrImageNotFound(pullspec))
    ensures lookup(pullspec).Some? ==> r == GetImageContent(lookup(pullspec).value.mount, includer, contentPath)
  {
    match lookup(pullspec)
    case None => Failure(ErrImageNotFound(pullspec))
    case Some(img) => GetImageContent(img.mount, includer, contentPath)
  }

  /** GetBuilderContent: intermediate content first, then the builder image's own content. */
  function GetBuilderContent(
    lookup: Lookup,
    store: Layers.Store,
    listing: Option<seq<Layers.Image>>,
    diff: Differ,
    pullspec: string,
    includer: Includer,
    builderContentPath: string,
    intermediateContentPath: string
  ): (r: Result<(Archive.Saved, ImageCopy), Error>)
    ensures lookup(pullspec).None? <==> r == Failure(ErrImageNotFound(pullspec))
    ensures r.Success? ==>
      && GetIntermediateContent(store, listing, lookup(pullspec).value.image, includer, intermediateContentPath, diff) == Success(r.value.0)
      && GetImageContent(lookup(pullspec).value.mount, includer, builderContentPath) == Success(r.value.1)
  {
    match lookup(pullspec)
    case None => Failure(ErrImageNotFound(pullspec))
    case Some(img) =>
      var intermediate :- GetIntermediateContent(store, listing, img.image, includer, intermediateContentPath, diff);
      var builder :- GetImageContent(img.mount, includer, builderContentPath);
      Success((intermediate, builder))
  }
}
