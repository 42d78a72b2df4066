/**
 * Includers (earlier revision): a builder includer holds the sources of a
 * builder reachable from the final stage, an external includer every source
 * copied out of an external image.
 */
module Includers {

  import DependencyTree

  type StageData = DependencyTree.Builder
  type Copier = DependencyTree.MaskCopy

  datatype BuilderIncluder = BuilderIncluder(sources: seq<string>)

  datatype BuilderIncluders = BuilderIncluders(aliasToMask: map<string, BuilderIncluder>)

  datatype ExternalIncluder = ExternalIncluder(sources: seq<string>)

  /** NewBuilderIncluders: one includer per alias that some dependency tree visits. */
  function NewBuilderIncluders(data: seq<StageData>): (r: BuilderIncluders)
    ensures data == [] ==> r.aliasToMask == map[]
    ensures forall a :: a in r.aliasToMask <==> a in DependencyTree.Masks(data)
    ensures forall a :: a in r.aliasToMask ==> r.aliasToMask[a].sources == DependencyTree.Masks(data)[a]
  {
    var m := DependencyTree.Masks(data);
    BuilderIncluders(map a | a in m :: BuilderIncluder(m[a]))
  }

  /** GetMask: the stored includer of the stage's alias, or one with no sources. */
  function GetMask(incs: BuilderIncluders, data: StageData): (r: BuilderIncluder)
    ensures data.alias !in incs.aliasToMask ==> r.sources == []
    ensures data.alias in incs.aliasToMask ==> r == incs.aliasToMask[data.alias]
  {
    if data.alias in incs.aliasToMask then incs.aliasToMask[data.alias] else BuilderIncluder([])
  }

  /** A stage's includer holds exactly the sources that end a chain of copies from the final stage in that stage. */
  lemma IncluderReachable(data: seq<StageData>, stage: StageData, s: string)
    ensures s in GetMask(NewBuilderIncluders(data), stage).sources <==>
      exists ch: seq<DependencyTree.Pos> ::
        && DependencyTree.IsRootChain(data, ch)
        && data[ch[|ch| - 1].stage].alias == stage.alias
        && s in DependencyTree.CopyAt(data, ch[|ch| - 1]).sources
  {
    DependencyTree.MaskMembers(data, stage.alias, s);
  }

  // ---------------------------------------------------------------------------
  // External includer
  // ---------------------------------------------------------------------------

  /** The number of sources over all copies. */
  function SourceCount(copies: seq<Copier>): nat
    decreases |copies|
  {
    if copies == [] then 0 else |copies[0].sources| + SourceCount(copies[1..])
  }

  /** The sources of all copies, copy after copy. */
  function AllSources(copies: seq<Copier>): (r: seq<string>)
    ensures |r| == SourceCount(copies)
    ensures forall s :: s in r <==> exists k :: 0 <= k < |copies| && s in copies[k].sources
    decreases |copies|
  {
    if copies == [] then []
    else
      assert forall k :: 1 <= k < |copies| ==> copies[k] == copies[1..][k - 1];
      copies[0].sources + AllSources(copies[1..])
  }

  /** External: an includer of every source the stage's copies name. */
  function External(data: StageData): (r: ExternalIncluder)
    ensures data.copies == [] ==> r.sources == []
    ensures |r.sources| == SourceCount(data.copies)
    ensures forall s :: s in r.sources <==> exists k :: 0 <= k < |data.copies| && s in data.copies[k].sources
  {
    ExternalIncluder(AllSources(data.copies))
  }

  /** Copy order is kept: the sources of a split copy list are the two halves' sources, one after the other. */
  lemma {:induction false} AllSourcesAppend(a: seq<Copier>, b: seq<Copier>)
    ensures AllSources(a + b) == AllSources(a) + AllSources(b)
    decreases |a|
  {
    if a == [] {
      assert a + b == b;
    } else {
      assert (a + b)[1..] == a[1..] + b;
      AllSourcesAppend(a[1..], b);
      assert a[0].sources + (AllSources(a[1..]) + AllSources(b)) == (a[0].sources + AllSources(a[1..])) + AllSources(b);
    }
  }

  // ---------------------------------------------------------------------------
  // The documented scenarios
  // ---------------------------------------------------------------------------

  /** A file handed from builder1 to builder2 and from there to the final stage. */
  const ChainOras := DependencyTree.MaskCopy(["/usr/bin/oras"], "/usr/bin/oras", "builder2")
  const FinalOras := DependencyTree.MaskCopy(["/usr/bin/oras"], "/usr/bin/oras", "")
  const ChainData := [DependencyTree.Builder("builder1", "", [ChainOras]), DependencyTree.Builder("builder2", "", [FinalOras])]

  lemma FileChainVisits()
    ensures DependencyTree.Visits(ChainData) == [
      DependencyTree.Visit("builder2", ["/usr/bin/oras"]),
      DependencyTree.Visit("builder1", ["/usr/bin/oras"])]
  {
    var data := ChainData;
    var leaf := DependencyTree.Node("builder1", ChainOras.sources, ChainOras.dest, []);
    assert DependencyTree.ChildrenOf(data, 0, ChainOras.sources) == [];
    assert DependencyTree.NodeAt(data, DependencyTree.Pos(0, 0)) == leaf;
    assert DependencyTree.ChildrenIn(data, 1, "/usr/bin/oras", 0, 0) == [leaf];
    assert DependencyTree.ChildrenOf(data, 1, FinalOras.sources) == [leaf];
    var root := DependencyTree.Node("builder2", FinalOras.sources, FinalOras.dest, [leaf]);
    assert DependencyTree.NodeAt(data, DependencyTree.Pos(1, 0)) == root;
    assert DependencyTree.StageRoots(data, 0, 1) == [] && DependencyTree.StageRoots(data, 1, 1) == [];
    assert DependencyTree.StageRoots(data, 0, 0) == [];
    assert DependencyTree.StageRoots(data, 1, 0) == [DependencyTree.Pos(1, 0)];
    assert DependencyTree.RootsFrom(data, 2) == [];
    assert DependencyTree.RootsFrom(data, 1) == [DependencyTree.Pos(1, 0)];
    assert DependencyTree.Roots(data) == [DependencyTree.Pos(1, 0)];
    var v0 := DependencyTree.Visit("builder2", ["/usr/bin/oras"]);
    var v1 := DependencyTree.Visit("builder1", ["/usr/bin/oras"]);
    assert DependencyTree.Collect(leaf) == [v1];
    assert [leaf][1..] == [];
    assert DependencyTree.CollectAll([leaf]) == [v1];
    assert DependencyTree.Collect(root) == [v0, v1];
  }

  /** A file copied through two builders: both builders receive the file's path. */
  lemma FileChainReachesEveryBuilder()
    ensures GetMask(NewBuilderIncluders(ChainData), ChainData[0]).sources == ["/usr/bin/oras"]
    ensures GetMask(NewBuilderIncluders(ChainData), ChainData[1]).sources == ["/usr/bin/oras"]
  {
    FileChainVisits();
    var v0 := DependencyTree.Visit("builder2", ["/usr/bin/oras"]);
    var v1 := DependencyTree.Visit("builder1", ["/usr/bin/oras"]);
    assert [v0, v1][..1] == [v0] && [v0][..0] == [];
    assert DependencyTree.SourcesFor([v0], "builder1") == [];
    assert DependencyTree.SourcesFor([v0, v1], "builder1") == ["/usr/bin/oras"];
    assert DependencyTree.SourcesFor([v0], "builder2") == [] + ["/usr/bin/oras"];
    assert DependencyTree.SourcesFor([v0, v1], "builder2") == ["/usr/bin/oras"] + [];
  }

  /** A file copied into builder1 that is never carried on, and a directory the final stage takes from builder2. */
  const UnusedWget := DependencyTree.MaskCopy(["/usr/bin/wget"], "/usr/bin/wget", "builder2")
  const FinalApp := DependencyTree.MaskCopy(["/app/"], "/app/", "")
  const UnusedData := [DependencyTree.Builder("builder1", "", [UnusedWget]), DependencyTree.Builder("builder2", "", [FinalApp])]

  lemma UnusedVisits()
    ensures DependencyTree.Visits(UnusedData) == [DependencyTree.Visit("builder2", ["/app/"])]
  {
    var data := UnusedData;
    assert !("/app/" <= "/usr/bin/wget") by {
      assert "/app/"[1] != "/usr/bin/wget"[1];
    }
    assert DependencyTree.ChildrenIn(data, 1, "/app/", 0, 0) == [];
    assert DependencyTree.ChildrenOf(data, 1, FinalApp.sources) == [];
    var root := DependencyTree.Node("builder2", FinalApp.sources, FinalApp.dest, []);
    assert DependencyTree.NodeAt(data, DependencyTree.Pos(1, 0)) == root;
    assert DependencyTree.StageRoots(data, 0, 1) == [] && DependencyTree.StageRoots(data, 1, 1) == [];
    assert DependencyTree.StageRoots(data, 0, 0) == [];
    assert DependencyTree.StageRoots(data, 1, 0) == [DependencyTree.Pos(1, 0)];
    assert DependencyTree.RootsFrom(data, 2) == [];
    assert DependencyTree.RootsFrom(data, 1) == [DependencyTree.Pos(1, 0)];
    assert DependencyTree.Roots(data) == [DependencyTree.Pos(1, 0)];
    assert DependencyTree.Collect(root) == [DependencyTree.Visit("builder2", ["/app/"])];
  }

  /**
   * Content copied into a builder but never carried on to the final stage
   * gives that builder no sources; the builder the final stage copies from
   * gets its directory.
   */
  lemma UncopiedContentExcluded()
    ensures GetMask(NewBuilderIncluders(UnusedData), UnusedData[0]).sources == []
    ensures GetMask(NewBuilderIncluders(UnusedData), UnusedData[1]).sources == ["/app/"]
  {
    UnusedVisits();
    var visits := [DependencyTree.Visit("builder2", ["/app/"])];
    assert "builder1" !in DependencyTree.Masks(UnusedData);
    assert DependencyTree.SourcesFor(visits, "builder2") == ["/app/"] by {
      assert visits[..0] == [];
    }
  }

  /** The copies of a two-builder chain that fills a directory and copies it on. */
  const DirOras := DependencyTree.MaskCopy(["/usr/bin/oras"], "/app/oras", "builder2")
  const DirBin := DependencyTree.MaskCopy(["/bin/*"], "/app/", "builder2")
  const DirApp := DependencyTree.MaskCopy(["/app/"], "/app/", "")
  const DirData := [DependencyTree.Builder("builder1", "", [DirOras, DirBin]), DependencyTree.Builder("builder2", "", [DirApp])]

  lemma DirectoryTree()
    ensures DependencyTree.Roots(DirData) == [DependencyTree.Pos(1, 0)]
    ensures DependencyTree.NodeAt(DirData, DependencyTree.Pos(1, 0)) ==
      DependencyTree.Node("builder2", ["/app/"], "/app/", [
        DependencyTree.Node("builder1", ["/usr/bin/oras"], "/app/oras", []),
        DependencyTree.Node("builder1", ["/bin/*"], "/app/", [])])
  {
    var data := DirData;
    var leaf1 := DependencyTree.Node("builder1", DirOras.sources, DirOras.dest, []);
    var leaf2 := DependencyTree.Node("builder1", DirBin.sources, DirBin.dest, []);
    assert DependencyTree.NodeAt(data, DependencyTree.Pos(0, 0)) == leaf1;
    assert DependencyTree.NodeAt(data, DependencyTree.Pos(0, 1)) == leaf2;
    assert "/app/" <= "/app/oras";
    assert DependencyTree.ChildrenIn(data, 1, "/app/", 0, 2) == [];
    assert DependencyTree.ChildrenIn(data, 1, "/app/", 0, 1) == [leaf2];
    assert DependencyTree.ChildrenIn(data, 1, "/app/", 0, 0) == [leaf1, leaf2];
    assert DependencyTree.ChildrenOf(data, 1, DirApp.sources) == [leaf1, leaf2];
    assert DependencyTree.StageRoots(data, 0, 2) == [] && DependencyTree.StageRoots(data, 1, 1) == [];
    assert DependencyTree.StageRoots(data, 0, 1) == [];
    assert DependencyTree.StageRoots(data, 0, 0) == [];
    assert DependencyTree.StageRoots(data, 1, 0) == [DependencyTree.Pos(1, 0)];
    assert DependencyTree.RootsFrom(data, 2) == [];
    assert DependencyTree.RootsFrom(data, 1) == [DependencyTree.Pos(1, 0)];
  }

  lemma DirectoryVisits()
    ensures DependencyTree.Visits(DirData) == [
      DependencyTree.Visit("builder2", ["/app/"]),
      DependencyTree.Visit("builder1", ["/usr/bin/oras"]),
      DependencyTree.Visit("builder1", ["/bin/*"])]
  {
    DirectoryTree();
    var leaf1 := DependencyTree.Node("builder1", ["/usr/bin/oras"], "/app/oras", []);
    var leaf2 := DependencyTree.Node("builder1", ["/bin/*"], "/app/", []);
    var root := DependencyTree.Node("builder2", ["/app/"], "/app/", [leaf1, leaf2]);
    var v0 := DependencyTree.Visit("builder2", ["/app/"]);
    var v1 := DependencyTree.Visit("builder1", ["/usr/bin/oras"]);
    var v2 := DependencyTree.Visit("builder1", ["/bin/*"]);
    assert DependencyTree.Collect(leaf2) == [v2];
    assert DependencyTree.CollectAll([leaf1, leaf2][1..]) == [v2];
    assert DependencyTree.CollectAll([leaf1, leaf2]) == [v1, v2];
    assert DependencyTree.Collect(root) == [v0, v1, v2];
  }

  /**
   * A directory copied out of a builder that filled it from an earlier one:
   * the earlier builder gets the sources of both copies that wrote below the
   * directory, the later one the directory itself.
   */
  lemma DirectoryChainCollectsWriters()
    ensures GetMask(NewBuilderIncluders(DirData), DirData[0]).sources == ["/usr/bin/oras", "/bin/*"]
    ensures GetMask(NewBuilderIncluders(DirData), DirData[1]).sources == ["/app/"]
  {
    DirectoryVisits();
    var v0 := DependencyTree.Visit("builder2", ["/app/"]);
    var v1 := DependencyTree.Visit("builder1", ["/usr/bin/oras"]);
    var v2 := DependencyTree.Visit("builder1", ["/bin/*"]);
    var visits := [v0, v1, v2];
    assert visits[..2] == [v0, v1] && [v0, v1][..1] == [v0] && [v0][..0] == [];
    assert DependencyTree.SourcesFor([v0], "builder1") == [];
    assert DependencyTree.SourcesFor(visits, "builder1") == ["/usr/bin/oras", "/bin/*"];
    assert DependencyTree.SourcesFor([v0], "builder2") == [] + ["/app/"];
    assert DependencyTree.SourcesFor([v0, v1], "builder2") == ["/app/"] + [];
    assert DependencyTree.SourcesFor(visits, "builder2") == ["/app/"];
  }

  /** Three copies straight from an image: the external includer lists their sources in copy order. */
  lemma ExternalKeepsCopyOrder()
    ensures External(DependencyTree.Builder("", "", [
        DependencyTree.MaskCopy(["/usr/bin/oras"], "", ""),
        DependencyTree.MaskCopy(["/lib/*"], "", ""),
        DependencyTree.MaskCopy(["/bin/syft"], "", "")
      ])).sources == ["/usr/bin/oras", "/lib/*", "/bin/syft"]
  {
    var a := DependencyTree.MaskCopy(["/usr/bin/oras"], "", "");
    var b := DependencyTree.MaskCopy(["/lib/*"], "", "");
    var c := DependencyTree.MaskCopy(["/bin/syft"], "", "");
    assert [a, b, c][1..] == [b, c] && [b, c][1..] == [c] && [c][1..] == [];
    assert AllSources([c]) == ["/bin/syft"];
    assert AllSources([b, c]) == ["/lib/*", "/bin/syft"];
  }
}
