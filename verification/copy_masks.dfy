/**
 * Copy masks (earlier revision): for each builder, the source paths that are
 * reachable from a COPY in the final stage, and a prefix test against them.
 */
module CopyMasks {

  import Paths
  import Inclusion
  import DependencyTree

  type Builder = DependencyTree.Builder

  datatype CopyMask = CopyMask(sources: seq<string>)

  datatype CopyMasks = CopyMasks(aliasToMask: map<string, CopyMask>)

  /** NewCopyMasks: one mask per builder alias that some dependency tree visits. */
  function NewCopyMasks(builders: seq<Builder>): (r: CopyMasks)
    ensures builders == [] ==> r.aliasToMask == map[]
    ensures forall a :: a in r.aliasToMask <==> a in DependencyTree.Masks(builders)
    ensures forall a :: a in r.aliasToMask ==> r.aliasToMask[a].sources == DependencyTree.Masks(builders)[a]
  {
    var m := DependencyTree.Masks(builders);
    CopyMasks(map a | a in m :: CopyMask(m[a]))
  }

  /** GetMask: the stored mask of the builder's alias, or a mask with no sources. */
  function GetMask(masks: CopyMasks, builder: Builder): (r: CopyMask)
    ensures builder.alias !in masks.aliasToMask ==> r.sources == []
    ensures builder.alias in masks.aliasToMask ==> r == masks.aliasToMask[builder.alias]
  {
    if builder.alias in masks.aliasToMask then masks.aliasToMask[builder.alias] else CopyMask([])
  }

  /** Includes: the path, made absolute, starts with one of the mask's sources. */
  function Includes(mask: CopyMask, path: string): (r: bool)
    ensures r <==> exists k :: 0 <= k < |mask.sources| && mask.sources[k] <= Paths.Absolute(path)
  {
    Inclusion.IncludesPrefix(mask.sources, path)
  }

  /**
   * The mask a builder gets holds exactly the sources of the copies out of
   * that builder that end a chain of copies from the final stage.
   */
  lemma MaskReachable(builders: seq<Builder>, builder: Builder, s: string)
    ensures s in GetMask(NewCopyMasks(builders), builder).sources <==>
      exists ch: seq<DependencyTree.Pos> ::
        && DependencyTree.IsRootChain(builders, ch)
        && builders[ch[|ch| - 1].stage].alias == builder.alias
        && s in DependencyTree.CopyAt(builders, ch[|ch| - 1]).sources
  {
    DependencyTree.MaskMembers(builders, builder.alias, s);
  }
}
