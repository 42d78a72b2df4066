/**
 * Layer genealogy in the image store. A layer knows only its parent; the
 * intermediate layer of a builder stage is found by walking parent chains of
 * unnamed images until they meet the builder image's top layer, and by picking
 * the image whose chain to the builder layer is longest.
 *
 * Both revisions of the content package walk the chains the same way, so they
 * share this module.
 */
module Layers {

  import opened Wrappers

  /** The layer store: every layer ID maps to its parent's ID (empty for a base layer). */
  type Store = map<string, string>

  /** An image in the store: its names (tags) and the ID of its top layer. */
  datatype Image = Image(names: seq<string>, topLayer: string)

  /**
   * A failed layer lookup, a failed listing of the store's images, or a parent
   * chain that runs in a circle. In the last case the store's loop never ends;
   * the model reports it instead.
   */
  datatype LayerError =
    | ErrStorage(layer: string)
    | ErrListImages
    | Diverges(layer: string)

  /** Where a walk up the parent chain stopped: after `hops` lookups, at the target or at an empty parent. */
  datatype Stop = Stop(hops: nat, reached: bool)

  // ---------------------------------------------------------------------------
  // The walk and its reference definition
  // ---------------------------------------------------------------------------

  /**
   * Follows parents from `id` until the empty ID or `target`, counting lookups.
   * `seen` holds the layers already left behind; meeting one again is a cycle.
   */
  function Walk(store: Store, target: string, id: string, seen: set<string>): (r: Result<Stop, LayerError>)
    ensures r.Success? && r.value.reached ==> target != ""
    ensures r.Failure? && r.error.ErrStorage? ==> r.error.layer !in store
    decreases store.Keys - seen
  {
    if id == "" then Success(Stop(0, false))
    else if id == target then Success(Stop(0, true))
    else if id !in store then Failure(ErrStorage(id))
    else if id in seen then Failure(Diverges(id))
    else
      assert store.Keys - (seen + {id}) < store.Keys - seen by {
        assert id in store.Keys - seen;
      }
      var rest :- Walk(store, target, store[id], seen + {id});
      Success(Stop(rest.hops + 1, rest.reached))
  }

  /** The layer `n` parent steps above `id`, when every step before it is in the store. */
  function Ancestor(store: Store, id: string, n: nat): Option<string>
    decreases n
  {
    if n == 0 then Some(id)
    else if id in store then Ancestor(store, store[id], n - 1)
    else None
  }

  /**
   * The parent chain from `id` meets `target` after exactly `d` steps, and
   * every layer before that exists and is neither the empty ID nor the target.
   */
  ghost predicate ReachesIn(store: Store, id: string, target: string, d: nat) {
    && target != ""
    && Ancestor(store, id, d) == Some(target)
    && forall j :: 0 <= j < d ==>
         && Ancestor(store, id, j).Some?
         && Ancestor(store, id, j).value != ""
         && Ancestor(store, id, j).value != target
  }

  lemma {:induction false} AncestorShift(store: Store, id: string, i: nat, k: nat)
    requires Ancestor(store, id, i).Some?
    ensures Ancestor(store, id, i + k) == Ancestor(store, Ancestor(store, id, i).value, k)
    decreases i
  {
    if i > 0 {
      AncestorShift(store, store[id], i - 1, k);
    }
  }

  /** A chain that reaches its target never passes its starting layer again on the way. */
  lemma ChainDistinct(store: Store, id: string, target: string, d: nat, i: nat)
    requires ReachesIn(store, id, target, d)
    requires 0 < i < d
    ensures Ancestor(store, id, i).value != id
  {
    if Ancestor(store, id, i).value == id {
      AncestorShift(store, id, i, d - i);
      assert Ancestor(store, id, d - i).value != target;
    }
  }

  /** A chain reaches its target after one number of steps only. */
  lemma ReachesUnique(store: Store, id: string, target: string, d1: nat, d2: nat)
    requires ReachesIn(store, id, target, d1)
    requires ReachesIn(store, id, target, d2)
    ensures d1 == d2
  {
  }

  /** A walk that ends at the target has followed the reference chain for as many steps as it counted. */
  lemma {:induction false} WalkSound(store: Store, target: string, id: string, seen: set<string>)
    requires Walk(store, target, id, seen).Success?
    requires Walk(store, target, id, seen).value.reached
    ensures ReachesIn(store, id, target, Walk(store, target, id, seen).value.hops)
    decreases store.Keys - seen
  {
    if id != "" && id != target {
      assert store.Keys - (seen + {id}) < store.Keys - seen by {
        assert id in store.Keys - seen;
      }
      var d := Walk(store, target, id, seen).value.hops;
      WalkSound(store, target, store[id], seen + {id});
      forall j | 0 <= j < d
        ensures Ancestor(store, id, j).Some?
        ensures Ancestor(store, id, j).value != ""
        ensures Ancestor(store, id, j).value != target
      {
        if j > 0 {
          assert Ancestor(store, id, j) == Ancestor(store, store[id], j - 1);
        }
      }
    }
  }

  /** A chain that reaches its target without passing a layer in `seen` is walked to the end. */
  lemma {:induction false} WalkComplete(store: Store, target: string, id: string, seen: set<string>, d: nat)
    requires ReachesIn(store, id, target, d)
    requires forall j :: 0 <= j < d ==> Ancestor(store, id, j).value !in seen
    ensures Walk(store, target, id, seen) == Success(Stop(d, true))
    decreases d
  {
    if d > 0 {
      assert Ancestor(store, id, 0) == Some(id);
      var parent := store[id];
      assert ReachesIn(store, parent, target, d - 1) by {
        forall j | 0 <= j <= d - 1
          ensures Ancestor(store, parent, j) == Ancestor(store, id, j + 1)
        {
        }
      }
      forall j | 0 <= j < d - 1
        ensures Ancestor(store, parent, j).value !in seen + {id}
      {
        assert Ancestor(store, parent, j) == Ancestor(store, id, j + 1);
        ChainDistinct(store, id, target, d, j + 1);
      }
      WalkComplete(store, target, parent, seen + {id}, d - 1);
    }
  }

  /** From a fresh start, the walk reaches the target after `d` hops exactly when the reference chain does. */
  lemma WalkReaches(store: Store, target: string, id: string, d: nat)
    ensures Walk(store, target, id, {}) == Success(Stop(d, true)) <==> ReachesIn(store, id, target, d)
  {
    if Walk(store, target, id, {}) == Success(Stop(d, true)) {
      WalkSound(store, target, id, {});
    }
    if ReachesIn(store, id, target, d) {
      WalkComplete(store, target, id, {}, d);
    }
  }

  // ---------------------------------------------------------------------------
  // Candidate intermediate layers
  // ---------------------------------------------------------------------------

  /** Unnamed and not the builder image itself: only such images are examined. */
  predicate Eligible(img: Image, builder: string) {
    img.names == [] && img.topLayer != builder
  }

  /** An image whose top layer lies on a chain above the builder layer. */
  ghost predicate IsCandidate(store: Store, builder: string, img: Image) {
    Eligible(img, builder) && exists d :: ReachesIn(store, img.topLayer, builder, d)
  }

  /** The top layers of the candidate images, in store order. */
  ghost function CandidateTops(store: Store, builder: string, images: seq<Image>): seq<string>
    decreases |images|
  {
    if images == [] then []
    else
      var head := if IsCandidate(store, builder, images[0]) then [images[0].topLayer] else [];
      head + CandidateTops(store, builder, images[1..])
  }

  /** One pass of the image loop: skip, fail on a missing layer, or report whether the chain reached the builder. */
  function ExamineImage(store: Store, builder: string, img: Image): (r: Result<bool, LayerError>)
  {
    if !Eligible(img, builder) then Success(false)
    else if img.topLayer !in store then Failure(ErrStorage(img.topLayer))
    else
      var stop :- Walk(store, builder, img.topLayer, {});
      Success(stop.reached)
  }

  /** A successful examination keeps exactly the candidates. */
  lemma ExamineImageCandidate(store: Store, builder: string, img: Image)
    requires ExamineImage(store, builder, img).Success?
    ensures ExamineImage(store, builder, img).value <==> IsCandidate(store, builder, img)
  {
    if Eligible(img, builder) {
      var stop := Walk(store, builder, img.topLayer, {});
      if stop.value.reached {
        WalkReaches(store, builder, img.topLayer, stop.value.hops);
      } else if d :| ReachesIn(store, img.topLayer, builder, d) {
        WalkReaches(store, builder, img.topLayer, d);
      }
    }
  }

  /** The candidate top layers of the unnamed images above the builder layer, in store order. */
  function Candidates(store: Store, builder: string, images: seq<Image>): (r: Result<seq<string>, LayerError>)
    ensures r.Success? ==> r.value == CandidateTops(store, builder, images)
    ensures r.Success? <==> forall k :: 0 <= k < |images| ==> ExamineImage(store, builder, images[k]).Success?
    decreases |images|
  {
    if images == [] then Success([])
    else
      var keep := ExamineImage(store, builder, images[0]);
      if keep.Failure? then Failure(keep.error)
      else
        ExamineImageCandidate(store, builder, images[0]);
        var rest := Candidates(store, builder, images[1..]);
        assert forall k :: 1 <= k < |images| ==> images[k] == images[1..][k - 1];
        if rest.Failure? then Failure(rest.error)
        else Success((if keep.value then [images[0].topLayer] else []) + rest.value)
  }

  lemma {:induction false} CandidateTopsMembers(store: Store, builder: string, images: seq<Image>, id: string)
    requires id in CandidateTops(store, builder, images)
    ensures exists k :: 0 <= k < |images| && images[k].topLayer == id && IsCandidate(store, builder, images[k])
    decreases |images|
  {
    if !(IsCandidate(store, builder, images[0]) && id == images[0].topLayer) {
      CandidateTopsMembers(store, builder, images[1..], id);
      var k :| 0 <= k < |images[1..]| && images[1..][k].topLayer == id && IsCandidate(store, builder, images[1..][k]);
      assert images[k + 1] == images[1..][k];
    }
  }

  /** A candidate lies at least one step above the builder layer, and its walk reaches it. */
  lemma CandidateDepth(store: Store, builder: string, images: seq<Image>, id: string)
    requires id in CandidateTops(store, builder, images)
    ensures Walk(store, builder, id, {}).Success?
    ensures Walk(store, builder, id, {}).value.reached
    ensures Walk(store, builder, id, {}).value.hops >= 1
    ensures ReachesIn(store, id, builder, Walk(store, builder, id, {}).value.hops)
  {
    CandidateTopsMembers(store, builder, images, id);
    var k :| 0 <= k < |images| && images[k].topLayer == id && IsCandidate(store, builder, images[k]);
    var d :| ReachesIn(store, id, builder, d);
    WalkReaches(store, builder, id, d);
  }

  // ---------------------------------------------------------------------------
  // The last intermediate layer
  // ---------------------------------------------------------------------------

  /** The number of parent lookups from each layer to the builder layer (or to an empty parent). */
  function Depths(store: Store, builder: string, ids: seq<string>): (r: Result<seq<nat>, LayerError>)
    ensures r.Success? ==> |r.value| == |ids|
    ensures r.Success? ==> forall k :: 0 <= k < |ids| ==>
      Walk(store, builder, ids[k], {}).Success? && Walk(store, builder, ids[k], {}).value.hops == r.value[k]
    decreases |ids|
  {
    if ids == [] then Success([])
    else
      var stop :- Walk(store, builder, ids[0], {});
      var rest :- Depths(store, builder, ids[1..]);
      assert forall k :: 1 <= k < |ids| ==> ids[k] == ids[1..][k - 1];
      Success([stop.hops] + rest)
  }

  /**
   * The running maximum with a strict comparison, starting from zero: the
   * index of the first maximal depth, or nothing when every depth is zero.
   */
  function Deepest(depths: seq<nat>): (r: (Option<nat>, nat))
    ensures forall j :: 0 <= j < |depths| ==> depths[j] <= r.1
    ensures r.0.None? <==> r.1 == 0
    ensures r.0.Some? ==> r.0.value < |depths| && depths[r.0.value] == r.1
    ensures r.0.Some? ==> forall j :: 0 <= j < r.0.value ==> depths[j] < r.1
    decreases |depths|
  {
    if depths == [] then (None, 0)
    else
      var last := |depths| - 1;
      var prefix := Deepest(depths[..last]);
      assert forall j :: 0 <= j < last ==> depths[j] == depths[..last][j];
      if depths[last] > prefix.1 then (Some(last), depths[last]) else prefix
  }

  /**
   * The top layer of the unnamed image with the longest chain to the builder
   * layer, or nothing when no image qualifies.
   */
  function LastIntermediateLayer(store: Store, builder: string, images: seq<Image>): (r: Result<Option<string>, LayerError>)
  {
    var candidates :- Candidates(store, builder, images);
    if |candidates| == 0 then Success(None)
    else
      var depths :- Depths(store, builder, candidates);
      var best := Deepest(depths).0;
      if best.Some? then Success(Some(candidates[best.value])) else Success(None)
  }

  /** Every candidate's depth walk succeeds, so the depths are computed. */
  lemma {:induction false} DepthsOfCandidates(store: Store, builder: string, cs: seq<string>)
    requires forall k :: 0 <= k < |cs| ==> Walk(store, builder, cs[k], {}).Success?
    ensures Depths(store, builder, cs).Success?
    decreases |cs|
  {
    if cs != [] {
      assert forall k :: 1 <= k < |cs| ==> cs[1..][k - 1] == cs[k];
      DepthsOfCandidates(store, builder, cs[1..]);
    }
  }

  /** Given the true depth of every candidate, the running maximum picks the first deepest one. */
  lemma PickDeepest(store: Store, builder: string, cs: seq<string>, depths: seq<nat>)
    requires |depths| == |cs| > 0
    requires forall k :: 0 <= k < |cs| ==> depths[k] >= 1 && ReachesIn(store, cs[k], builder, depths[k])
    ensures Deepest(depths).0.Some?
    ensures var i := Deepest(depths).0.value;
      && ReachesIn(store, cs[i], builder, depths[i])
      && forall j, dj: nat :: 0 <= j < |cs| && ReachesIn(store, cs[j], builder, dj) ==>
           dj <= depths[i] && (j < i ==> dj < depths[i])
  {
    var i := Deepest(depths).0.value;
    forall j, dj: nat | 0 <= j < |cs| && ReachesIn(store, cs[j], builder, dj)
      ensures dj <= depths[i] && (j < i ==> dj < depths[i])
    {
      ReachesUnique(store, cs[j], builder, depths[j], dj);
    }
  }

  /**
   * The choice of the last intermediate layer: it exists exactly when some
   * image is a candidate, it is the candidate deepest above the builder layer,
   * and an earlier candidate of the same depth wins. Lookups along candidate
   * chains never fail a second time.
   */
  lemma LastIntermediateChoice(store: Store, builder: string, images: seq<Image>)
    ensures LastIntermediateLayer(store, builder, images).Success? <==> Candidates(store, builder, images).Success?
    ensures LastIntermediateLayer(store, builder, images).Success? ==>
      (LastIntermediateLayer(store, builder, images).value.None? <==> CandidateTops(store, builder, images) == [])
    ensures LastIntermediateLayer(store, builder, images).Success? && LastIntermediateLayer(store, builder, images).value.Some? ==>
      var cs := CandidateTops(store, builder, images);
      exists i: nat, di: nat :: i < |cs| && LastIntermediateLayer(store, builder, images).value.value == cs[i]
        && ReachesIn(store, cs[i], builder, di)
        && forall j, dj: nat :: 0 <= j < |cs| && ReachesIn(store, cs[j], builder, dj) ==> dj <= di && (j < i ==> dj < di)
  {
    var c := Candidates(store, builder, images);
    if c.Success? && |c.value| > 0 {
      var cs := c.value;
      forall k | 0 <= k < |cs|
        ensures Walk(store, builder, cs[k], {}).Success?
        ensures Walk(store, builder, cs[k], {}).value.hops >= 1
        ensures ReachesIn(store, cs[k], builder, Walk(store, builder, cs[k], {}).value.hops)
      {
        CandidateDepth(store, builder, images, cs[k]);
      }
      DepthsOfCandidates(store, builder, cs);
      var depths := Depths(store, builder, cs).value;
      PickDeepest(store, builder, cs, depths);
      var i := Deepest(depths).0.value;
      assert LastIntermediateLayer(store, builder, images) == Success(Some(cs[i]));
    }
  }
}
