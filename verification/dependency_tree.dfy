/**
 * The copy dependency tree of the earlier revision, shared by the copy masks
 * and the builder includers. Every builder lists the COPY commands that copy
 * out of it; a command issued in the final stage is a root, and a command in
 * an earlier builder is a child of a node when its destination starts with
 * one of the node's sources. Collecting the tree in pre-order hands every
 * node's sources to the node's builder.
 */
module DependencyTree {

  import Paths

  const FinalStage: string := ""

  /** A COPY out of a builder: its sources, its destination and the alias of the stage it is issued in. */
  datatype MaskCopy = MaskCopy(sources: seq<string>, dest: string, stage: string) {
    predicate IsFromFinalStage() {
      stage == FinalStage
    }
  }

  /** A builder stage with the copies taken from it. */
  datatype Builder = Builder(alias: string, pullspec: string, copies: seq<MaskCopy>)

  /** A node of the dependency tree. */
  datatype Node = Node(builder: string, sources: seq<string>, dest: string, children: seq<Node>)

  /** The position of a copy: the index of the builder it is taken from and its index there. */
  datatype Pos = Pos(stage: nat, copy: nat)

  /** What collecting one node contributes: the builder's alias and the node's sources. */
  datatype Visit = Visit(alias: string, sources: seq<string>)

  predicate ValidPos(builders: seq<Builder>, p: Pos) {
    p.stage < |builders| && p.copy < |builders[p.stage].copies|
  }

  function CopyAt(builders: seq<Builder>, p: Pos): MaskCopy
    requires ValidPos(builders, p)
  {
    builders[p.stage].copies[p.copy]
  }

  function VisitAt(builders: seq<Builder>, p: Pos): Visit
    requires ValidPos(builders, p)
  {
    Visit(builders[p.stage].alias, CopyAt(builders, p).sources)
  }

  // ---------------------------------------------------------------------------
  // Building the tree
  // ---------------------------------------------------------------------------

  /** The subtree for the copy at `p`: its children come from builders before `p.stage`. */
  function NodeAt(builders: seq<Builder>, p: Pos): Node
    requires ValidPos(builders, p)
    decreases p.stage, 3, 0
  {
    var c := CopyAt(builders, p);
    Node(builders[p.stage].alias, c.sources, c.dest, ChildrenOf(builders, p.stage, c.sources))
  }

  /** Children for each source in turn. */
  function ChildrenOf(builders: seq<Builder>, i: nat, srcs: seq<string>): seq<Node>
    requires i <= |builders|
    decreases i, 2, |srcs|
  {
    if srcs == [] then []
    else ChildrenBelow(builders, i, srcs[0], 0) + ChildrenOf(builders, i, srcs[1..])
  }

  /** Children for one source from the builders `j` up to (not including) `i`. */
  function ChildrenBelow(builders: seq<Builder>, i: nat, src: string, j: nat): seq<Node>
    requires j <= i <= |builders|
    decreases i, 1, i - j
  {
    if j == i then []
    else ChildrenIn(builders, i, src, j, 0) + ChildrenBelow(builders, i, src, j + 1)
  }

  /** Children for one source among the copies of builder `j` from index `m` on: those whose destination the source prefixes. */
  function ChildrenIn(builders: seq<Builder>, i: nat, src: string, j: nat, m: nat): seq<Node>
    requires j < i <= |builders|
    requires m <= |builders[j].copies|
    decreases i, 0, |builders[j].copies| - m
  {
    if m == |builders[j].copies| then []
    else
      var rest := ChildrenIn(builders, i, src, j, m + 1);
      if src <= builders[j].copies[m].dest then [NodeAt(builders, Pos(j, m))] + rest else rest
  }

  // ---------------------------------------------------------------------------
  // Collecting the tree
  // ---------------------------------------------------------------------------

  /** Pre-order: the node itself, then its children's subtrees left to right. */
  function Collect(n: Node): seq<Visit>
    decreases n, 1
  {
    [Visit(n.builder, n.sources)] + CollectAll(n.children)
  }

  function CollectAll(ns: seq<Node>): seq<Visit>
    decreases ns, 0
  {
    if ns == [] then [] else Collect(ns[0]) + CollectAll(ns[1..])
  }

  lemma {:induction false} CollectAllMember(ns: seq<Node>, v: Visit)
    ensures v in CollectAll(ns) <==> exists t :: 0 <= t < |ns| && v in Collect(ns[t])
    decreases |ns|
  {
    if ns != [] {
      CollectAllMember(ns[1..], v);
      if v in CollectAll(ns[1..]) {
        var t :| 0 <= t < |ns[1..]| && v in Collect(ns[1..][t]);
        assert ns[t + 1] == ns[1..][t];
      }
      forall t | 1 <= t < |ns| && v in Collect(ns[t])
        ensures v in CollectAll(ns[1..])
      {
        assert ns[1..][t - 1] == ns[t];
      }
    }
  }

  // ---------------------------------------------------------------------------
  // The reference definition: chains of copies
  // ---------------------------------------------------------------------------

  /** The parent copy reads from where the child copy wrote: a parent source prefixes the child's destination. */
  predicate Feeds(parent: MaskCopy, child: MaskCopy) {
    exists s :: s in parent.sources && s <= child.dest
  }

  /** A chain of copies, each taken from a strictly earlier builder and feeding the one before it. */
  ghost predicate IsChain(builders: seq<Builder>, ch: seq<Pos>) {
    && |ch| >= 1
    && (forall t :: 0 <= t < |ch| ==> ValidPos(builders, ch[t]))
    && forall t :: 0 <= t < |ch| - 1 ==>
         ch[t + 1].stage < ch[t].stage && Feeds(CopyAt(builders, ch[t]), CopyAt(builders, ch[t + 1]))
  }

  lemma {:induction false} ChildrenInSound(builders: seq<Builder>, i: nat, src: string, j: nat, m: nat, c: Node)
    requires j < i <= |builders| && m <= |builders[j].copies|
    requires c in ChildrenIn(builders, i, src, j, m)
    ensures exists q :: ValidPos(builders, q) && q.stage == j && src <= CopyAt(builders, q).dest && c == NodeAt(builders, q)
    decreases |builders[j].copies| - m
  {
    if m < |builders[j].copies| {
      if !(src <= builders[j].copies[m].dest && c == NodeAt(builders, Pos(j, m))) {
        ChildrenInSound(builders, i, src, j, m + 1, c);
      } else {
        assert ValidPos(builders, Pos(j, m));
      }
    }
  }

  lemma {:induction false} ChildrenBelowSound(builders: seq<Builder>, i: nat, src: string, j: nat, c: Node)
    requires j <= i <= |builders|
    requires c in ChildrenBelow(builders, i, src, j)
    ensures exists q :: ValidPos(builders, q) && q.stage < i && src <= CopyAt(builders, q).dest && c == NodeAt(builders, q)
    decreases i - j
  {
    if c in ChildrenIn(builders, i, src, j, 0) {
      ChildrenInSound(builders, i, src, j, 0, c);
    } else {
      ChildrenBelowSound(builders, i, src, j + 1, c);
    }
  }

  /** Every child is the subtree of a copy in an earlier builder whose destination a source prefixes. */
  lemma {:induction false} ChildrenSound(builders: seq<Builder>, i: nat, srcs: seq<string>, c: Node)
    requires i <= |builders|
    requires c in ChildrenOf(builders, i, srcs)
    ensures exists q ::
      && ValidPos(builders, q) && q.stage < i && c == NodeAt(builders, q)
      && exists s :: s in srcs && s <= CopyAt(builders, q).dest
    decreases |srcs|
  {
    if c in ChildrenBelow(builders, i, srcs[0], 0) {
      ChildrenBelowSound(builders, i, srcs[0], 0, c);
      assert srcs[0] in srcs;
    } else {
      ChildrenSound(builders, i, srcs[1..], c);
      var q :| ValidPos(builders, q) && q.stage < i && c == NodeAt(builders, q)
        && exists s :: s in srcs[1..] && s <= CopyAt(builders, q).dest;
      var s :| s in srcs[1..] && s <= CopyAt(builders, q).dest;
      assert s in srcs;
    }
  }

  lemma {:induction false} ChildrenInComplete(builders: seq<Builder>, i: nat, src: string, j: nat, m: nat, q: Pos)
    requires j < i <= |builders| && m <= |builders[j].copies|
    requires ValidPos(builders, q) && q.stage == j && m <= q.copy && src <= CopyAt(builders, q).dest
    ensures NodeAt(builders, q) in ChildrenIn(builders, i, src, j, m)
    decreases |builders[j].copies| - m
  {
    if q.copy != m {
      ChildrenInComplete(builders, i, src, j, m + 1, q);
    }
  }

  lemma {:induction false} ChildrenBelowComplete(builders: seq<Builder>, i: nat, src: string, j: nat, q: Pos)
    requires j <= i <= |builders|
    requires ValidPos(builders, q) && j <= q.stage < i && src <= CopyAt(builders, q).dest
    ensures NodeAt(builders, q) in ChildrenBelow(builders, i, src, j)
    decreases i - j
  {
    if q.stage == j {
      ChildrenInComplete(builders, i, src, j, 0, q);
    } else {
      ChildrenBelowComplete(builders, i, src, j + 1, q);
    }
  }

  /** Every copy in an earlier builder whose destination a source prefixes has its subtree among the children. */
  lemma {:induction false} ChildrenComplete(builders: seq<Builder>, i: nat, srcs: seq<string>, s: string, q: Pos)
    requires i <= |builders|
    requires ValidPos(builders, q) && q.stage < i
    requires s in srcs && s <= CopyAt(builders, q).dest
    ensures NodeAt(builders, q) in ChildrenOf(builders, i, srcs)
    decreases |srcs|
  {
    if srcs[0] == s {
      ChildrenBelowComplete(builders, i, s, 0, q);
    } else {
      ChildrenComplete(builders, i, srcs[1..], s, q);
    }
  }

  /** A copy feeding the first copy of a chain from an earlier builder extends it at the front. */
  lemma ChainCons(builders: seq<Builder>, p: Pos, ch: seq<Pos>)
    requires ValidPos(builders, p)
    requires IsChain(builders, ch)
    requires ch[0].stage < p.stage && Feeds(CopyAt(builders, p), CopyAt(builders, ch[0]))
    ensures IsChain(builders, [p] + ch)
    ensures ([p] + ch)[0] == p && ([p] + ch)[|ch|] == ch[|ch| - 1]
  {
    var ch' := [p] + ch;
    assert forall t :: 1 <= t < |ch'| ==> ch'[t] == ch[t - 1];
  }

  /** One level of a subtree's collection: the copy itself, or something a child collects. */
  lemma CollectStep(builders: seq<Builder>, p: Pos, v: Visit)
    requires ValidPos(builders, p)
    requires v in Collect(NodeAt(builders, p))
    requires v != VisitAt(builders, p)
    ensures exists q ::
      && ValidPos(builders, q) && q.stage < p.stage
      && Feeds(CopyAt(builders, p), CopyAt(builders, q)) && v in Collect(NodeAt(builders, q))
  {
    var n := NodeAt(builders, p);
    CollectAllMember(n.children, v);
    var t :| 0 <= t < |n.children| && v in Collect(n.children[t]);
    ChildrenSound(builders, p.stage, n.sources, n.children[t]);
  }

  /** The end of a chain from `q`, with `p` fed by `q`, also ends a chain from `p`. */
  lemma ChainExtends(builders: seq<Builder>, p: Pos, q: Pos, v: Visit)
    requires ValidPos(builders, p) && ValidPos(builders, q) && q.stage < p.stage
    requires Feeds(CopyAt(builders, p), CopyAt(builders, q))
    requires exists ch :: IsChain(builders, ch) && ch[0] == q && v == VisitAt(builders, ch[|ch| - 1])
    ensures exists ch :: IsChain(builders, ch) && ch[0] == p && v == VisitAt(builders, ch[|ch| - 1])
  {
    var ch :| IsChain(builders, ch) && ch[0] == q && v == VisitAt(builders, ch[|ch| - 1]);
    ChainCons(builders, p, ch);
    var full := [p] + ch;
    assert IsChain(builders, full) && full[0] == p && v == VisitAt(builders, full[|full| - 1]);
  }

  /** Whatever the subtree of a copy collects was reached by a chain starting at that copy. */
  lemma {:induction false} CollectSound(builders: seq<Builder>, p: Pos, v: Visit)
    requires ValidPos(builders, p)
    requires v in Collect(NodeAt(builders, p))
    ensures exists ch :: IsChain(builders, ch) && ch[0] == p && v == VisitAt(builders, ch[|ch| - 1])
    decreases p.stage
  {
    if v == VisitAt(builders, p) {
      assert IsChain(builders, [p]);
    } else {
      CollectStep(builders, p, v);
      var q :| ValidPos(builders, q) && q.stage < p.stage
        && Feeds(CopyAt(builders, p), CopyAt(builders, q)) && v in Collect(NodeAt(builders, q));
      CollectSound(builders, q, v);
      ChainExtends(builders, p, q, v);
    }
  }

  /** The end of every chain is collected by the subtree of its first copy. */
  lemma {:induction false} CollectComplete(builders: seq<Builder>, ch: seq<Pos>)
    requires IsChain(builders, ch)
    ensures VisitAt(builders, ch[|ch| - 1]) in Collect(NodeAt(builders, ch[0]))
    decreases |ch|
  {
    if |ch| > 1 {
      var rest := ch[1..];
      assert forall t :: 0 <= t < |rest| ==> rest[t] == ch[t + 1];
      assert IsChain(builders, rest);
      CollectComplete(builders, rest);
      var n := NodeAt(builders, ch[0]);
      var s :| s in CopyAt(builders, ch[0]).sources && s <= CopyAt(builders, ch[1]).dest;
      ChildrenComplete(builders, ch[0].stage, n.sources, s, ch[1]);
      var t :| 0 <= t < |n.children| && n.children[t] == NodeAt(builders, ch[1]);
      CollectAllMember(n.children, VisitAt(builders, ch[|ch| - 1]));
    }
  }

  // ---------------------------------------------------------------------------
  // Roots and the collected masks
  // ---------------------------------------------------------------------------

  /** The positions of the final-stage copies of builder `i` from copy `k` on, in order. */
  function StageRoots(builders: seq<Builder>, i: nat, k: nat): (r: seq<Pos>)
    requires i < |builders| && k <= |builders[i].copies|
    ensures forall p :: p in r <==>
      ValidPos(builders, p) && p.stage == i && k <= p.copy && CopyAt(builders, p).IsFromFinalStage()
    decreases |builders[i].copies| - k
  {
    if k == |builders[i].copies| then []
    else
      var rest := StageRoots(builders, i, k + 1);
      if builders[i].copies[k].IsFromFinalStage() then [Pos(i, k)] + rest else rest
  }

  /** The positions of all final-stage copies of builders `i` onwards, builder by builder. */
  function RootsFrom(builders: seq<Builder>, i: nat): (r: seq<Pos>)
    requires i <= |builders|
    ensures forall p :: p in r <==> ValidPos(builders, p) && i <= p.stage && CopyAt(builders, p).IsFromFinalStage()
    decreases |builders| - i
  {
    if i == |builders| then [] else StageRoots(builders, i, 0) + RootsFrom(builders, i + 1)
  }

  function Roots(builders: seq<Builder>): (r: seq<Pos>)
    ensures forall p :: p in r <==> ValidPos(builders, p) && CopyAt(builders, p).IsFromFinalStage()
  {
    RootsFrom(builders, 0)
  }

  /** The trees for the given positions, in order. */
  function NodesAt(builders: seq<Builder>, ps: seq<Pos>): (r: seq<Node>)
    requires forall t :: 0 <= t < |ps| ==> ValidPos(builders, ps[t])
    ensures |r| == |ps|
    ensures forall t :: 0 <= t < |ps| ==> r[t] == NodeAt(builders, ps[t])
    decreases |ps|
  {
    if ps == [] then [] else [NodeAt(builders, ps[0])] + NodesAt(builders, ps[1..])
  }

  /** All visits: the trees of the roots collected one after the other. */
  function Visits(builders: seq<Builder>): seq<Visit> {
    var roots := Roots(builders);
    assert forall t :: 0 <= t < |roots| ==> roots[t] in roots;
    CollectAll(NodesAt(builders, roots))
  }

  /** The sources every visit of `alias` contributed, concatenated in visiting order. */
  function SourcesFor(visits: seq<Visit>, alias: string): (r: seq<string>)
    ensures forall s :: s in r <==> exists v :: v in visits && v.alias == alias && s in v.sources
    decreases |visits|
  {
    if visits == [] then []
    else
      var last := visits[|visits| - 1];
      var init := visits[..|visits| - 1];
      assert forall v :: v in visits <==> v in init || v == last;
      SourcesFor(init, alias) + (if last.alias == alias then last.sources else [])
  }

  lemma {:induction false} SourcesForAbsent(visits: seq<Visit>, alias: string)
    requires forall v :: v in visits ==> v.alias != alias
    ensures SourcesFor(visits, alias) == []
    decreases |visits|
  {
    if visits != [] {
      SourcesForAbsent(visits[..|visits| - 1], alias);
    }
  }

  /** The alias-to-sources map the visits accumulate, one append per visit. */
  function BuildMask(visits: seq<Visit>): (r: map<string, seq<string>>)
    ensures forall a :: a in r <==> exists v :: v in visits && v.alias == a
    ensures forall a :: a in r ==> r[a] == SourcesFor(visits, a)
    decreases |visits|
  {
    if visits == [] then map[]
    else
      var last := visits[|visits| - 1];
      var init := visits[..|visits| - 1];
      assert forall v :: v in visits <==> v in init || v == last;
      var m := BuildMask(init);
      var prior := if last.alias in m then m[last.alias] else [];
      assert prior == SourcesFor(init, last.alias) by {
        if last.alias !in m {
          SourcesForAbsent(init, last.alias);
        }
      }
      m[last.alias := prior + last.sources]
  }

  /** The masks of a builder list: empty for no builders, otherwise the collected roots' trees. */
  function Masks(builders: seq<Builder>): (r: map<string, seq<string>>)
    ensures builders == [] ==> r == map[]
  {
    if builders == [] then map[] else BuildMask(Visits(builders))
  }

  /** A chain that starts at a final-stage copy. */
  ghost predicate IsRootChain(builders: seq<Builder>, ch: seq<Pos>) {
    IsChain(builders, ch) && CopyAt(builders, ch[0]).IsFromFinalStage()
  }

  lemma VisitsSound(builders: seq<Builder>, v: Visit)
    requires v in Visits(builders)
    ensures exists ch: seq<Pos> :: IsRootChain(builders, ch) && v == VisitAt(builders, ch[|ch| - 1])
  {
    var roots := Roots(builders);
    assert forall t :: 0 <= t < |roots| ==> roots[t] in roots;
    var nodes := NodesAt(builders, roots);
    CollectAllMember(nodes, v);
    var t :| 0 <= t < |nodes| && v in Collect(nodes[t]);
    CollectSound(builders, roots[t], v);
  }

  lemma VisitsComplete(builders: seq<Builder>, ch: seq<Pos>)
    requires IsRootChain(builders, ch)
    ensures VisitAt(builders, ch[|ch| - 1]) in Visits(builders)
  {
    var roots := Roots(builders);
    assert forall t :: 0 <= t < |roots| ==> roots[t] in roots;
    var nodes := NodesAt(builders, roots);
    CollectComplete(builders, ch);
    assert ch[0] in roots;
    var t :| 0 <= t < |roots| && roots[t] == ch[0];
    CollectAllMember(nodes, VisitAt(builders, ch[|ch| - 1]));
  }

  /** The visits are exactly the ends of the chains that start at final-stage copies. */
  lemma VisitsMembers(builders: seq<Builder>, v: Visit)
    ensures v in Visits(builders) <==>
      exists ch: seq<Pos> :: IsRootChain(builders, ch) && v == VisitAt(builders, ch[|ch| - 1])
  {
    if v in Visits(builders) {
      VisitsSound(builders, v);
    }
    if ch: seq<Pos> :| IsRootChain(builders, ch) && v == VisitAt(builders, ch[|ch| - 1]) {
      VisitsComplete(builders, ch);
    }
  }

  /**
   * A source is in a builder's mask exactly when some chain of copies from
   * the final stage ends at a copy from that builder with that source; every
   * builder along such a chain receives the sources of its own copy.
   */
  lemma MaskMembers(builders: seq<Builder>, alias: string, s: string)
    ensures (alias in Masks(builders) && s in Masks(builders)[alias]) <==>
      exists ch: seq<Pos> ::
        && IsRootChain(builders, ch)
        && builders[ch[|ch| - 1].stage].alias == alias
        && s in CopyAt(builders, ch[|ch| - 1]).sources
  {
    if builders != [] {
      if alias in Masks(builders) && s in Masks(builders)[alias] {
        var v :| v in Visits(builders) && v.alias == alias && s in v.sources;
        VisitsMembers(builders, v);
      }
      if ch: seq<Pos> :|
        && IsRootChain(builders, ch)
        && builders[ch[|ch| - 1].stage].alias == alias
        && s in CopyAt(builders, ch[|ch| - 1]).sources
      {
        VisitsMembers(builders, VisitAt(builders, ch[|ch| - 1]));
      }
    }
  }
}
