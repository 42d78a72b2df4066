/**
 * A layer diff as a stream of archive entries, and the extraction that keeps
 * only the entries a filter accepts. Extraction is described by the file-system
 * effects it would have; the file system itself is not modelled.
 */
module Archive {

  import Paths

  /** The entry types the extraction distinguishes: directories, regular files and everything else. */
  datatype EntryKind = DirEntry | RegularEntry | OtherEntry

  datatype Entry = Entry(name: string, kind: EntryKind, data: seq<bv8>)

  /** The headers read before the end of the archive, and whether reading stopped on an error rather than at the end. */
  datatype Stream = Stream(entries: seq<Entry>, readError: bool)

  /** Creating a directory and its parents, or writing a file's bytes. */
  datatype Effect =
    | MakeDirs(path: string)
    | WriteFile(path: string, data: seq<bv8>)
  {
    function Path(): string {
      match this
      case MakeDirs(p) => p
      case WriteFile(p, _) => p
    }
  }

  /** The names an extraction reports and the effects it has, in order. */
  datatype Saved = Saved(included: seq<string>, effects: seq<Effect>)

  /**
   * The effects of extracting one accepted entry below `dest`: a directory is
   * created, a regular file gets its parent directories and then its bytes,
   * any other entry is left alone.
   */
  function Materialise(dest: string, e: Entry): (r: seq<Effect>)
    ensures forall x :: x in r ==> x.Path() == Paths.Join(dest, e.name) || x.Path() == Paths.Dir(Paths.Join(dest, e.name))
    ensures r == [] <==> e.kind.OtherEntry?
    ensures e.kind.DirEntry? ==> MakeDirs(Paths.Join(dest, e.name)) in r
    ensures WriteFile(Paths.Join(dest, e.name), e.data) in r <==> e.kind.RegularEntry?
  {
    var target := Paths.Join(dest, e.name);
    match e.kind
    case DirEntry =>
      assert MakeDirs(target).Path() == target;
      [MakeDirs(target)]
    case RegularEntry =>
      assert MakeDirs(Paths.Dir(target)).Path() == Paths.Dir(target) && WriteFile(target, e.data).Path() == target;
      [MakeDirs(Paths.Dir(target)), WriteFile(target, e.data)]
    case OtherEntry => []
  }

  /** The entries the filter accepts, extracted in stream order. */
  function Extract(accepts: string -> bool, dest: string, entries: seq<Entry>): (r: Saved)
    ensures |r.included| <= |entries|
    ensures forall i :: 0 <= i < |r.included| ==> accepts(r.included[i])
    ensures forall k :: 0 <= k < |entries| && accepts(entries[k].name) ==> entries[k].name in r.included
    ensures forall x :: x in r.effects ==>
      exists k :: 0 <= k < |entries| && accepts(entries[k].name) && x in Materialise(dest, entries[k])
    decreases |entries|
  {
    if entries == [] then Saved([], [])
    else
      var e := entries[0];
      var rest := Extract(accepts, dest, entries[1..]);
      assert forall k :: 1 <= k < |entries| ==> entries[k] == entries[1..][k - 1];
      if accepts(e.name) then Saved([e.name] + rest.included, Materialise(dest, e) + rest.effects)
      else rest
  }

  /** Extraction streams: a split stream extracts to the two halves' results, one after the other. */
  lemma {:induction false} ExtractAppend(accepts: string -> bool, dest: string, a: seq<Entry>, b: seq<Entry>)
    ensures Extract(accepts, dest, a + b) == Saved(
      Extract(accepts, dest, a).included + Extract(accepts, dest, b).included,
      Extract(accepts, dest, a).effects + Extract(accepts, dest, b).effects)
    decreases |a|
  {
    if a == [] {
      assert a + b == b;
    } else {
      assert (a + b)[0] == a[0];
      assert (a + b)[1..] == a[1..] + b;
      ExtractAppend(accepts, dest, a[1..], b);
      var x := Extract(accepts, dest, a[1..]);
      var y := Extract(accepts, dest, b);
      if accepts(a[0].name) {
        Paths.AppendAssoc([a[0].name], x.included, y.included);
        Paths.AppendAssoc(Materialise(dest, a[0]), x.effects, y.effects);
      }
    }
  }

  /** A rejected entry contributes nothing: neither a reported name nor an effect. */
  lemma RejectedLeavesNoTrace(accepts: string -> bool, dest: string, a: seq<Entry>, e: Entry, b: seq<Entry>)
    requires !accepts(e.name)
    ensures Extract(accepts, dest, a + [e] + b) == Extract(accepts, dest, a + b)
  {
    ExtractAppend(accepts, dest, a + [e], b);
    ExtractAppend(accepts, dest, a, [e]);
    ExtractAppend(accepts, dest, a, b);
    assert Extract(accepts, dest, [e]) == Saved([], []) by {
      assert [e][1..] == [];
    }
    assert Extract(accepts, dest, a).included + [] == Extract(accepts, dest, a).included;
    assert Extract(accepts, dest, a).effects + [] == Extract(accepts, dest, a).effects;
  }

  /** Accepted names are reported once per entry, duplicates included: as many names as accepted entries. */
  function AcceptedCount(accepts: string -> bool, entries: seq<Entry>): nat
    decreases |entries|
  {
    if entries == [] then 0
    else (if accepts(entries[0].name) then 1 else 0) + AcceptedCount(accepts, entries[1..])
  }

  lemma {:induction false} ExtractCounts(accepts: string -> bool, dest: string, entries: seq<Entry>)
    ensures |Extract(accepts, dest, entries).included| == AcceptedCount(accepts, entries)
    decreases |entries|
  {
    if entries != [] {
      ExtractCounts(accepts, dest, entries[1..]);
    }
  }
}
