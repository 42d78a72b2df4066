/**
 * Content selection of the current revision: the intermediate content of a
 * builder stage is the diff between the last intermediate layer and the
 * builder image's top layer, filtered by the stage's sources with pattern or
 * prefix matching and extracted below a destination directory.
 */
module Content {

  import opened Wrappers
  import Inclusion
  import Layers
  import Archive

  /**
   * ErrStorage wraps a failed layer lookup or image listing; ErrDiff is a diff the
   * store cannot compute, which Go also wraps as a storage error but which is kept
   * apart here so that a result names the two layers involved; ErrIO is a failed
   * archive read.
   */
  datatype ContentError =
    | ErrStorage(cause: Layers.LayerError)
    | ErrDiff(parent: string, layer: string)
    | ErrIO

  /** The store's diff between a parent layer and a layer, or nothing when it cannot be computed. */
  type Differ = (string, string) -> Option<Archive.Stream>

  /** The filter of this revision: a source accepts a path by pattern or by prefix. */
  predicate Accepts(sources: seq<string>, path: string) {
    Inclusion.Includes(sources, path)
  }

  /**
   * saveDiff as intended: the accepted entries are extracted in stream order,
   * and a header that cannot be read is reported as an I/O error.
   */
  function SaveDiff(sources: seq<string>, dest: string, stream: Archive.Stream): (r: Result<Archive.Saved, ContentError>)
    ensures r.Failure? <==> stream.readError
    ensures r.Failure? ==> r.error == ErrIO
    ensures r.Success? ==> forall i :: 0 <= i < |r.value.included| ==> Inclusion.Includes(sources, r.value.included[i])
    ensures r.Success? ==> forall k :: 0 <= k < |stream.entries| && Inclusion.Includes(sources, stream.entries[k].name) ==>
      stream.entries[k].name in r.value.included
  {
    if stream.readError then Failure(ErrIO)
    else Success(Archive.Extract(p => Accepts(sources, p), dest, stream.entries))
  }

  /**
   * saveDiff as written: the deferred close assigns the named error result
   * after the return statement has set it, so a read error comes back as an
   * empty list and no error, after the entries before it were extracted.
   */
  function SaveDiffAsWritten(sources: seq<string>, dest: string, stream: Archive.Stream): (r: Result<Archive.Saved, ContentError>)
    ensures r.Success?
    ensures stream.readError ==> r.value.included == []
    ensures !stream.readError ==> r == SaveDiff(sources, dest, stream)
  {
    var saved := Archive.Extract(p => Accepts(sources, p), dest, stream.entries);
    if stream.readError then Success(Archive.Saved([], saved.effects)) else Success(saved)
  }

  /**
   * A diff whose header stream breaks after an accepted regular file: the file
   * is written, yet the as-written revision reports no content and no error,
   * which the caller cannot tell from a stage without intermediate content.
   */
  lemma ReadErrorSwallowed()
    ensures var stream := Archive.Stream([Archive.Entry("usr/bin/oras", Archive.RegularEntry, [])], true);
      && SaveDiffAsWritten(["/usr/"], "/tmp/intermediate", stream).Success?
      && SaveDiffAsWritten(["/usr/"], "/tmp/intermediate", stream).value.included == []
      && |SaveDiffAsWritten(["/usr/"], "/tmp/intermediate", stream).value.effects| == 2
      && SaveDiff(["/usr/"], "/tmp/intermediate", stream) == Failure(ErrIO)
  {
    var e := Archive.Entry("usr/bin/oras", Archive.RegularEntry, []);
    assert Inclusion.Includes(["/usr/"], e.name) by {
      assert "/usr/" <= "/" + e.name;
      assert Inclusion.Accepts(["/usr/"][0], e.name);
    }
    var accepts := p => Accepts(["/usr/"], p);
    assert accepts(e.name);
    assert [e][1..] == [];
    assert Archive.Extract(accepts, "/tmp/intermediate", [e]).effects
        == Archive.Materialise("/tmp/intermediate", e) + [];
  }

  /**
   * getIntermediateContent: look up the builder image's top layer, list the
   * store's images (`listing` is None when that fails), find the last
   * intermediate layer above it among them, and extract the filtered diff
   * between the two; without an intermediate layer there is nothing to extract.
   */
  function GetIntermediateContent(
    store: Layers.Store,
    listing: Option<seq<Layers.Image>>,
    builderImage: Layers.Image,
    sources: seq<string>,
    dest: string,
    diff: Differ
  ): (r: Result<Archive.Saved, ContentError>)
    ensures builderImage.topLayer !in store ==> r == Failure(ErrStorage(Layers.ErrStorage(builderImage.topLayer)))
    ensures builderImage.topLayer in store && listing.None? ==> r == Failure(ErrStorage(Layers.ErrListImages))
    ensures r.Success? ==> forall i :: 0 <= i < |r.value.included| ==> Inclusion.Includes(sources, r.value.included[i])
    ensures r.Success? && r.value != Archive.Saved([], []) ==>
      && listing.Some?
      && Layers.LastIntermediateLayer(store, builderImage.topLayer, listing.value).Success?
      && Layers.LastIntermediateLayer(store, builderImage.topLayer, listing.value).value.Some?
  {
    var builder := builderImage.topLayer;
    if builder !in store then Failure(ErrStorage(Layers.ErrStorage(builder)))
    else if listing.None? then Failure(ErrStorage(Layers.ErrListImages))
    else
      var last := Layers.LastIntermediateLayer(store, builder, listing.value);
      if last.Failure? then Failure(ErrStorage(last.error))
      else if last.value.None? then Success(Archive.Saved([], []))
      else
        var layer := last.value.value;
        match diff(builder, layer)
        case None => Failure(ErrDiff(builder, layer))
        case Some(stream) => SaveDiff(sources, dest, stream)
  }

  /**
   * getIntermediateContent as written, on top of saveDiff as written: it agrees
   * with the corrected composition except that a diff whose headers cannot be
   * read yields no content and no error instead of the I/O error.
   */
  function GetIntermediateContentAsWritten(
    store: Layers.Store,
    listing: Option<seq<Layers.Image>>,
    builderImage: Layers.Image,
    sources: seq<string>,
    dest: string,
    diff: Differ
  ): (r: Result<Archive.Saved, ContentError>)
    ensures var fixed := GetIntermediateContent(store, listing, builderImage, sources, dest, diff);
      && (fixed != Failure(ErrIO) ==> r == fixed)
      && (fixed == Failure(ErrIO) ==> r.Success? && r.value.included == [])
  {
    var builder := builderImage.topLayer;
    if builder !in store then Failure(ErrStorage(Layers.ErrStorage(builder)))
    else if listing.None? then Failure(ErrStorage(Layers.ErrListImages))
    else
      var last := Layers.LastIntermediateLayer(store, builder, listing.value);
      if last.Failure? then Failure(ErrStorage(last.error))
      else if last.value.None? then Success(Archive.Saved([], []))
      else
        var layer := last.value.value;
        match diff(builder, layer)
        case None => Failure(ErrDiff(builder, layer))
        case Some(stream) => SaveDiffAsWritten(sources, dest, stream)
  }

  /** Without a last intermediate layer the result is empty whatever the store's diff would say: no diff is taken. */
  lemma NoIntermediateNoDiff(
    store: Layers.Store,
    images: seq<Layers.Image>,
    builderImage: Layers.Image,
    sources: seq<string>,
    dest: string,
    diff1: Differ,
    diff2: Differ
  )
    requires builderImage.topLayer in store
    requires Layers.CandidateTops(store, builderImage.topLayer, images) == []
    requires Layers.Candidates(store, builderImage.topLayer, images).Success?
    ensures GetIntermediateContent(store, Some(images), builderImage, sources, dest, diff1) == Success(Archive.Saved([], []))
    ensures GetIntermediateContent(store, Some(images), builderImage, sources, dest, diff1)
         == GetIntermediateContent(store, Some(images), builderImage, sources, dest, diff2)
  {
    Layers.LastIntermediateChoice(store, builderImage.topLayer, images);
  }

  /** With a last intermediate layer, the content is the filtered diff between it and the builder layer. */
  lemma IntermediateDiffUsed(
    store: Layers.Store,
    images: seq<Layers.Image>,
    builderImage: Layers.Image,
    sources: seq<string>,
    dest: string,
    diff: Differ
  )
    requires builderImage.topLayer in store
    requires Layers.LastIntermediateLayer(store, builderImage.topLayer, images).Success?
    requires Layers.LastIntermediateLayer(store, builderImage.topLayer, images).value.Some?
    requires diff(builderImage.topLayer, Layers.LastIntermediateLayer(store, builderImage.topLayer, images).value.value).Some?
    ensures var layer := Layers.LastIntermediateLayer(store, builderImage.topLayer, images).value.value;
      && layer in Layers.CandidateTops(store, builderImage.topLayer, images)
      && GetIntermediateContent(store, Some(images), builderImage, sources, dest, diff)
         == SaveDiff(sources, dest, diff(builderImage.topLayer, layer).value)
  {
    Layers.LastIntermediateChoice(store, builderImage.topLayer, images);
  }
}
