/**
 * Provenance tracing and package-source assembly (pkg/scan.go).
 *
 * Every path a COPY brings into the final stage is traced backwards through the
 * builder stages: a copy in the stage under inspection whose destination starts with
 * the traced path brought (part of) it in, so each of that copy's sources is traced
 * further into the stage the copy names. A path is attributed to the stage under
 * inspection when no copy brought it in, or when it names a directory (which may mix
 * content of the stage itself with copied content). The attributions, collected per
 * stage, become the package sources: one per builder stage, in stage order, then one
 * per path copied straight from an image.
 *
 * The Go accumulator maps stage pointers to appended paths; the model returns the
 * attributions as a log in append order, so the accumulator entry of a stage is
 * `Own(log, stage)`.
 */
module Scan {

  import opened Wrappers
  import Paths
  import Containerfile

  type Stage = Containerfile.Stage
  type Copy = Containerfile.Copy

  /** Where content was found: a builder stage (by index) or an image copied from directly. */
  datatype Origin = BuilderStage(index: nat) | ExternalImage(pullspec: string)

  /** One accumulator append: `path` is to be scanned in `origin`. */
  datatype Attribution = Attribution(origin: Origin, path: string)

  // ---------------------------------------------------------------------------
  // Aliases
  // ---------------------------------------------------------------------------

  /** Stage `j` is the last of the first `n` stages carrying its alias. */
  predicate LastAlias(stages: seq<Stage>, n: nat, j: nat)
    requires j < n <= |stages|
  {
    forall m :: j < m < n ==> stages[m].alias != stages[j].alias
  }

  /** Recording stage `n - 1` under its alias keeps the alias map's two promises for the first `n` stages. */
  lemma AliasIndexStep(stages: seq<Stage>, n: nat, prev: map<string, nat>)
    requires 0 < n <= |stages|
    requires forall a :: a in prev <==> exists j :: 0 <= j < n - 1 && stages[j].alias == a
    requires forall a :: a in prev ==> prev[a] < n - 1 && stages[prev[a]].alias == a && LastAlias(stages, n - 1, prev[a])
    ensures var r := prev[stages[n - 1].alias := n - 1];
      && (forall a :: a in r <==> exists j :: 0 <= j < n && stages[j].alias == a)
      && (forall a :: a in r ==> r[a] < n && stages[r[a]].alias == a && LastAlias(stages, n, r[a]))
  {
    var r := prev[stages[n - 1].alias := n - 1];
    forall a ensures a in r <==> exists j :: 0 <= j < n && stages[j].alias == a {
      if a == stages[n - 1].alias {
        assert stages[n - 1].alias == a;
      }
    }
    forall a | a in r
      ensures r[a] < n && stages[r[a]].alias == a && LastAlias(stages, n, r[a])
    {
      if a != stages[n - 1].alias {
        assert LastAlias(stages, n - 1, prev[a]);
      }
    }
  }

  /** The aliases of the first `n` stages, each mapped to the last stage carrying it. */
  function AliasIndex(stages: seq<Stage>, n: nat): (r: map<string, nat>)
    requires n <= |stages|
    ensures forall a :: a in r <==> exists j :: 0 <= j < n && stages[j].alias == a
    ensures forall a :: a in r ==> r[a] < n && stages[r[a]].alias == a && LastAlias(stages, n, r[a])
    decreases n
  {
    if n == 0 then map[]
    else
      var prev := AliasIndex(stages, n - 1);
      AliasIndexStep(stages, n, prev);
      prev[stages[n - 1].alias := n - 1]
  }


  /** The alias-to-stage map of every stage but the final one. */
  function Aliases(stages: seq<Stage>): map<string, nat>
    requires |stages| > 0
  {
    AliasIndex(stages, |stages| - 1)
  }

  /**
   * The COPY graph the trace walks: aliases name non-final stages, and a copy that
   * names an alias names a strictly earlier stage.
   */
  predicate Graph(stages: seq<Stage>, aliases: map<string, nat>) {
    && (forall a :: a in aliases ==> aliases[a] < |stages| - 1)
    && (forall i, c :: 0 <= i < |stages| && c in stages[i].copies && c.from in aliases ==> aliases[c.from] < i)
  }

  /** The stages' own COPY graph is acyclic in the sense of Graph. */
  predicate Acyclic(stages: seq<Stage>)
    requires |stages| > 0
  {
    Graph(stages, Aliases(stages))
  }

  // ---------------------------------------------------------------------------
  // Tracing
  // ---------------------------------------------------------------------------

  predicate IsDirectory(source: string) {
    Paths.HasSuffix(source, "/")
  }

  /** The copy may have brought in the path: its destination starts with it. */
  predicate Feeds(c: Copy, source: string) {
    source <= c.destination
  }

  predicate AnyFeeds(copies: seq<Copy>, source: string) {
    exists k :: 0 <= k < |copies| && Feeds(copies[k], source)
  }

  /** Every From that is not an alias, among the copies of the first `bound` stages. */
  function ExternalFroms(stages: seq<Stage>, aliases: map<string, nat>, bound: nat): set<string>
    requires bound <= |stages|
  {
    set i, c | 0 <= i < bound && c in stages[i].copies && c.from !in aliases :: c.from
  }

  predicate BuilderBelow(a: Attribution, bound: nat) {
    a.origin.BuilderStage? ==> a.origin.index < bound
  }

  predicate ExternalKnown(stages: seq<Stage>, aliases: map<string, nat>, a: Attribution, bound: nat)
    requires bound <= |stages|
  {
    a.origin.ExternalImage? ==> a.origin.pullspec in ExternalFroms(stages, aliases, bound)
  }

  /**
   * Traces `source` in stage `curr`: everything the feeding copies' sources trace to,
   * then the path itself for `curr` when it is a directory or nothing fed it. Nothing
   * but that last entry is attributed to `curr` itself.
   */
  function Trace(stages: seq<Stage>, aliases: map<string, nat>, source: string, curr: nat): (r: seq<Attribution>)
    requires Graph(stages, aliases) && curr < |stages|
    ensures forall j :: 0 <= j < |r| ==>
      BuilderBelow(r[j], curr + 1) && ExternalKnown(stages, aliases, r[j], curr + 1)
    ensures forall j :: 0 <= j < |r| && r[j].origin == BuilderStage(curr) ==>
      j == |r| - 1 && r[j].path == source
    decreases curr, 2, 0
  {
    var traced := TraceCopies(stages, aliases, source, curr, 0);
    traced + (if IsDirectory(source) || !AnyFeeds(stages[curr].copies, source)
              then [Attribution(BuilderStage(curr), source)] else [])
  }

  /** The traces of the sources of every copy from the `k`-th on that feeds `source`. */
  function TraceCopies(stages: seq<Stage>, aliases: map<string, nat>, source: string, curr: nat, k: nat): (r: seq<Attribution>)
    requires Graph(stages, aliases) && curr < |stages| && k <= |stages[curr].copies|
    ensures forall j :: 0 <= j < |r| ==>
      BuilderBelow(r[j], curr) && ExternalKnown(stages, aliases, r[j], curr + 1)
    decreases curr, 1, |stages[curr].copies| - k
  {
    if k == |stages[curr].copies| then []
    else
      var c := stages[curr].copies[k];
      (if Feeds(c, source) then TraceSources(stages, aliases, c, curr, 0) else [])
        + TraceCopies(stages, aliases, source, curr, k + 1)
  }

  /**
   * The traces of the sources of copy `c` of stage `curr` from the `k`-th on, each in
   * the stage `c` names; a copy straight from an image attributes them to the image.
   */
  function TraceSources(stages: seq<Stage>, aliases: map<string, nat>, c: Copy, curr: nat, k: nat): (r: seq<Attribution>)
    requires Graph(stages, aliases) && curr < |stages| && c in stages[curr].copies && k <= |c.sources|
    ensures forall j :: 0 <= j < |r| ==>
      BuilderBelow(r[j], curr) && ExternalKnown(stages, aliases, r[j], curr + 1)
    decreases curr, 0, |c.sources| - k
  {
    if k == |c.sources| then []
    else
      var head :=
        if c.from in aliases then Trace(stages, aliases, c.sources[k], aliases[c.from])
        else [Attribution(ExternalImage(c.from), c.sources[k])];
      assert forall j :: 0 <= j < |head| ==>
        BuilderBelow(head[j], curr) && ExternalKnown(stages, aliases, head[j], curr + 1);
      head + TraceSources(stages, aliases, c, curr, k + 1)
  }

  /**
   * A copy straight from an image contributes one attribution per source, verbatim and
   * in order: nothing is merged, so a source listed twice is attributed twice.
   */
  lemma {:induction false} ImageSourcesVerbatim(stages: seq<Stage>, aliases: map<string, nat>, c: Copy, curr: nat, k: nat)
    requires Graph(stages, aliases) && curr < |stages| && c in stages[curr].copies && k <= |c.sources|
    requires c.from !in aliases
    ensures |TraceSources(stages, aliases, c, curr, k)| == |c.sources| - k
    ensures forall i :: k <= i < |c.sources| ==>
      TraceSources(stages, aliases, c, curr, k)[i - k] == Attribution(ExternalImage(c.from), c.sources[i])
    decreases |c.sources| - k
  {
    if k < |c.sources| {
      ImageSourcesVerbatim(stages, aliases, c, curr, k + 1);
    }
  }

  /** The log is never deduplicated: an image copy naming the same source twice credits it twice. */
  lemma RepeatedSourceCreditedTwice(stages: seq<Stage>, aliases: map<string, nat>, c: Copy, curr: nat, i: nat, j: nat)
    requires Graph(stages, aliases) && curr < |stages| && c in stages[curr].copies && c.from !in aliases
    requires i < j < |c.sources| && c.sources[i] == c.sources[j]
    ensures var r := TraceSources(stages, aliases, c, curr, 0);
      && |r| == |c.sources|
      && r[i] == r[j] == Attribution(ExternalImage(c.from), c.sources[i])
      && multiset(r)[Attribution(ExternalImage(c.from), c.sources[i])] >= 2
  {
    ImageSourcesVerbatim(stages, aliases, c, curr, 0);
    TwoOccurrences(TraceSources(stages, aliases, c, curr, 0), i, j);
  }

  /** Two positions holding the same element make it occur at least twice. */
  lemma TwoOccurrences<T>(r: seq<T>, i: nat, j: nat)
    requires i < j < |r| && r[i] == r[j]
    ensures multiset(r)[r[i]] >= 2
  {
    assert r == r[..j] + r[j..];
    assert r[..j] == r[..i] + r[i..j];
    assert r[i] in multiset(r[i..j]) by { assert r[i..j][0] == r[i]; }
    assert r[i] in multiset(r[j..]) by { assert r[j..][0] == r[i]; }
  }

  // ---------------------------------------------------------------------------
  // Tracing as written: a feeding copy that names no alias is followed into a nil stage
  // ---------------------------------------------------------------------------

  /**
   * The trace as the source writes it: the stage a feeding copy names is looked up
   * unchecked, so a feeding copy straight from an image sends the recursion into a nil
   * stage, whose copies are then read. None stands for that nil dereference.
   */
  function TraceAsWritten(stages: seq<Stage>, aliases: map<string, nat>, source: string, curr: nat): (r: Option<seq<Attribution>>)
    requires Graph(stages, aliases) && curr < |stages|
    decreases curr, 2, 0
  {
    var traced :- TraceCopiesAsWritten(stages, aliases, source, curr, 0);
    Some(traced + (if IsDirectory(source) || !AnyFeeds(stages[curr].copies, source)
                   then [Attribution(BuilderStage(curr), source)] else []))
  }

  function TraceCopiesAsWritten(stages: seq<Stage>, aliases: map<string, nat>, source: string, curr: nat, k: nat): (r: Option<seq<Attribution>>)
    requires Graph(stages, aliases) && curr < |stages| && k <= |stages[curr].copies|
    decreases curr, 1, |stages[curr].copies| - k
  {
    if k == |stages[curr].copies| then Some([])
    else
      var c := stages[curr].copies[k];
      var head :- if Feeds(c, source) then TraceSourcesAsWritten(stages, aliases, c, curr, 0) else Some([]);
      var rest :- TraceCopiesAsWritten(stages, aliases, source, curr, k + 1);
      Some(head + rest)
  }

  function TraceSourcesAsWritten(stages: seq<Stage>, aliases: map<string, nat>, c: Copy, curr: nat, k: nat): (r: Option<seq<Attribution>>)
    requires Graph(stages, aliases) && curr < |stages| && c in stages[curr].copies && k <= |c.sources|
    decreases curr, 0, |c.sources| - k
  {
    if k == |c.sources| then Some([])
    else if c.from !in aliases then None
    else
      var head :- TraceAsWritten(stages, aliases, c.sources[k], aliases[c.from]);
      var rest :- TraceSourcesAsWritten(stages, aliases, c, curr, k + 1);
      Some(head + rest)
  }

  /** Wherever the trace as written does not dereference a nil stage, it agrees with the corrected trace. */
  lemma {:induction false} TraceAgrees(stages: seq<Stage>, aliases: map<string, nat>, source: string, curr: nat)
    requires Graph(stages, aliases) && curr < |stages|
    ensures TraceAsWritten(stages, aliases, source, curr).Some? ==>
      TraceAsWritten(stages, aliases, source, curr).value == Trace(stages, aliases, source, curr)
    decreases curr, 2, 0
  {
    TraceCopiesAgree(stages, aliases, source, curr, 0);
  }

  lemma {:induction false} TraceCopiesAgree(stages: seq<Stage>, aliases: map<string, nat>, source: string, curr: nat, k: nat)
    requires Graph(stages, aliases) && curr < |stages| && k <= |stages[curr].copies|
    ensures TraceCopiesAsWritten(stages, aliases, source, curr, k).Some? ==>
      TraceCopiesAsWritten(stages, aliases, source, curr, k).value == TraceCopies(stages, aliases, source, curr, k)
    decreases curr, 1, |stages[curr].copies| - k
  {
    if k < |stages[curr].copies| {
      var c := stages[curr].copies[k];
      if Feeds(c, source) {
        TraceSourcesAgree(stages, aliases, c, curr, 0);
      }
      TraceCopiesAgree(stages, aliases, source, curr, k + 1);
    }
  }

  lemma {:induction false} TraceSourcesAgree(stages: seq<Stage>, aliases: map<string, nat>, c: Copy, curr: nat, k: nat)
    requires Graph(stages, aliases) && curr < |stages| && c in stages[curr].copies && k <= |c.sources|
    ensures TraceSourcesAsWritten(stages, aliases, c, curr, k).Some? ==>
      TraceSourcesAsWritten(stages, aliases, c, curr, k).value == TraceSources(stages, aliases, c, curr, k)
    decreases curr, 0, |c.sources| - k
  {
    if k < |c.sources| && c.from in aliases {
      TraceAgrees(stages, aliases, c.sources[k], aliases[c.from]);
      TraceSourcesAgree(stages, aliases, c, curr, k + 1);
    }
  }

  /**
   * A builder stage `b` copies a file from an image into `/etc/`, and the final stage
   * copies `/etc/` from `b`. Tracing `/etc/` in `b` dereferences a nil stage, while
   * the corrected trace attributes the file to the image and the directory to `b`.
   */
  lemma NilStageCounterexample()
    ensures var stages := [
        Containerfile.Stage("b", "registry.example/base:1", [
          Containerfile.Copy(["/etc/file"], "/etc/", "docker.io/library/fedora:latest", Containerfile.CopyTypeExternal)]),
        Containerfile.Stage(Containerfile.FinalStage, "", [
          Containerfile.Copy(["/etc/"], "/etc/", "b", Containerfile.CopyTypeBuilder)])];
      && Acyclic(stages)
      && TraceAsWritten(stages, Aliases(stages), "/etc/", 0).None?
      && Trace(stages, Aliases(stages), "/etc/", 0) == [
        Attribution(ExternalImage("docker.io/library/fedora:latest"), "/etc/file"),
        Attribution(BuilderStage(0), "/etc/")]
  {
    var ext := Containerfile.Copy(["/etc/file"], "/etc/", "docker.io/library/fedora:latest", Containerfile.CopyTypeExternal);
    var stages := [
      Containerfile.Stage("b", "registry.example/base:1", [ext]),
      Containerfile.Stage(Containerfile.FinalStage, "", [
        Containerfile.Copy(["/etc/"], "/etc/", "b", Containerfile.CopyTypeBuilder)])];
    var aliases := Aliases(stages);
    assert aliases == map["b" := 0];
    assert Acyclic(stages);
    assert Feeds(ext, "/etc/");
    assert TraceSourcesAsWritten(stages, aliases, ext, 0, 0).None?;
    assert TraceCopiesAsWritten(stages, aliases, "/etc/", 0, 0).None?;
    assert TraceSources(stages, aliases, ext, 0, 0) == [Attribution(ExternalImage(ext.from), "/etc/file")];
    assert TraceCopies(stages, aliases, "/etc/", 0, 0) == [Attribution(ExternalImage(ext.from), "/etc/file")];
    assert IsDirectory("/etc/");
  }

  // ---------------------------------------------------------------------------
  // The accumulator
  // ---------------------------------------------------------------------------

  /** The accumulator entry of `o`: the paths attributed to it, in append order. */
  function Own(log: seq<Attribution>, o: Origin): seq<string>
    decreases |log|
  {
    if log == [] then []
    else (if log[0].origin == o then [log[0].path] else []) + Own(log[1..], o)
  }

  /** The accumulator entry of `o` holds exactly the paths of the entries naming `o`. */
  lemma {:induction false} OwnMembers(log: seq<Attribution>, o: Origin)
    ensures forall p :: p in Own(log, o) <==> Attribution(o, p) in log
    decreases |log|
  {
    if log != [] {
      OwnMembers(log[1..], o);
      assert log == [log[0]] + log[1..];
    }
  }

  lemma {:induction false} OwnAppend(a: seq<Attribution>, b: seq<Attribution>, o: Origin)
    ensures Own(a + b, o) == Own(a, o) + Own(b, o)
    decreases |a|
  {
    if a != [] {
      assert (a + b)[0] == a[0];
      assert (a + b)[1..] == a[1..] + b;
      OwnAppend(a[1..], b, o);
      var head := if a[0].origin == o then [a[0].path] else [];
      assert Own(a + b, o) == head + Own(a[1..] + b, o);
      assert Own(a, o) == head + Own(a[1..], o);
      Paths.AppendAssoc(head, Own(a[1..], o), Own(b, o));
    } else {
      assert a + b == b;
    }
  }

  /** Nothing is attributed to an origin no entry names. */
  lemma {:induction false} OwnAbsent(log: seq<Attribution>, o: Origin)
    requires forall j :: 0 <= j < |log| ==> log[j].origin != o
    ensures Own(log, o) == []
    decreases |log|
  {
    if log != [] {
      OwnAbsent(log[1..], o);
    }
  }

  /** The attributions to images, in append order. */
  function Externals(log: seq<Attribution>): (r: seq<Attribution>)
    ensures forall j :: 0 <= j < |r| ==> r[j].origin.ExternalImage?
    decreases |log|
  {
    if log == [] then []
    else (if log[0].origin.ExternalImage? then [log[0]] else []) + Externals(log[1..])
  }

  /** The attributions to images are exactly the log's entries naming an image. */
  lemma {:induction false} ExternalsMembers(log: seq<Attribution>)
    ensures forall a :: a in Externals(log) <==> a in log && a.origin.ExternalImage?
    decreases |log|
  {
    if log != [] {
      ExternalsMembers(log[1..]);
      assert log == [log[0]] + log[1..];
    }
  }

  function PathsOf(log: seq<Attribution>): (r: seq<string>)
    ensures |r| == |log| && forall j :: 0 <= j < |log| ==> r[j] == log[j].path
  {
    seq(|log|, j requires 0 <= j < |log| => log[j].path)
  }

  /**
   * The current stage gets the traced path itself exactly when the path is a directory
   * or no copy of the stage brought it in, and gets nothing else from this trace.
   */
  lemma OwnEntry(stages: seq<Stage>, aliases: map<string, nat>, source: string, curr: nat)
    requires Graph(stages, aliases) && curr < |stages|
    ensures Own(Trace(stages, aliases, source, curr), BuilderStage(curr)) ==
      if IsDirectory(source) || !AnyFeeds(stages[curr].copies, source) then [source] else []
  {
    var traced := TraceCopies(stages, aliases, source, curr, 0);
    var own := if IsDirectory(source) || !AnyFeeds(stages[curr].copies, source)
               then [Attribution(BuilderStage(curr), source)] else [];
    OwnAppend(traced, own, BuilderStage(curr));
    OwnAbsent(traced, BuilderStage(curr));
  }

  // ---------------------------------------------------------------------------
  // Tracing as walks back through the COPY graph
  // ---------------------------------------------------------------------------

  /** A path in a stage. */
  datatype Point = Point(stage: nat, path: string)

  /**
   * One step back: a copy of `p`'s stage that may have brought in `p`'s path names
   * `q`'s stage and has `q`'s path among its sources.
   */
  ghost predicate TraceStep(stages: seq<Stage>, aliases: map<string, nat>, p: Point, q: Point) {
    && p.stage < |stages|
    && exists c :: (c in stages[p.stage].copies && Feeds(c, p.path) && c.from in aliases
                    && aliases[c.from] == q.stage && q.path in c.sources)
  }

  /** A walk back through the COPY graph from its first point, one TraceStep at a time. */
  ghost predicate IsTracePath(stages: seq<Stage>, aliases: map<string, nat>, ch: seq<Point>) {
    && |ch| > 0
    && ch[0].stage < |stages|
    && forall j :: 0 <= j < |ch| - 1 ==> TraceStep(stages, aliases, ch[j], ch[j + 1])
  }

  /**
   * A walk that stops at `last` credits `a`: `last`'s own stage with `last`'s path when
   * that path is a directory or no copy of the stage brought it in, or an image with a
   * source of a copy of `last`'s stage that may have brought in `last`'s path straight
   * from that image.
   */
  ghost predicate EndsIn(stages: seq<Stage>, aliases: map<string, nat>, last: Point, a: Attribution) {
    && last.stage < |stages|
    && match a.origin
       case BuilderStage(b) =>
         last == Point(b, a.path) && (IsDirectory(a.path) || !AnyFeeds(stages[last.stage].copies, a.path))
       case ExternalImage(image) =>
         exists c :: (c in stages[last.stage].copies && Feeds(c, last.path) && c.from !in aliases
                      && c.from == image && a.path in c.sources)
  }

  /** What tracing source `s` of copy `c` yields: its trace in the stage `c` names, or its attribution to the image. */
  ghost predicate SourceYields(stages: seq<Stage>, aliases: map<string, nat>, c: Copy, s: string, a: Attribution)
    requires Graph(stages, aliases)
  {
    if c.from in aliases then a in Trace(stages, aliases, s, aliases[c.from])
    else a == Attribution(ExternalImage(c.from), s)
  }

  /** Copy `c` may have brought in `source`, and one of its sources yields `a`. */
  ghost predicate CopyYields(stages: seq<Stage>, aliases: map<string, nat>, c: Copy, source: string, a: Attribution)
    requires Graph(stages, aliases)
  {
    Feeds(c, source) && exists m :: 0 <= m < |c.sources| && SourceYields(stages, aliases, c, c.sources[m], a)
  }

  lemma {:induction false} TraceSourcesMembers(stages: seq<Stage>, aliases: map<string, nat>, c: Copy, curr: nat, k: nat, a: Attribution)
    requires Graph(stages, aliases) && curr < |stages| && c in stages[curr].copies && k <= |c.sources|
    ensures a in TraceSources(stages, aliases, c, curr, k) <==>
      exists m :: k <= m < |c.sources| && SourceYields(stages, aliases, c, c.sources[m], a)
    decreases |c.sources| - k
  {
    if k < |c.sources| {
      TraceSourcesMembers(stages, aliases, c, curr, k + 1, a);
    }
  }

  lemma {:induction false} TraceCopiesMembers(stages: seq<Stage>, aliases: map<string, nat>, source: string, curr: nat, k: nat, a: Attribution)
    requires Graph(stages, aliases) && curr < |stages| && k <= |stages[curr].copies|
    ensures a in TraceCopies(stages, aliases, source, curr, k) <==>
      exists j :: k <= j < |stages[curr].copies| && CopyYields(stages, aliases, stages[curr].copies[j], source, a)
    decreases |stages[curr].copies| - k
  {
    if k < |stages[curr].copies| {
      var c := stages[curr].copies[k];
      TraceCopiesMembers(stages, aliases, source, curr, k + 1, a);
      TraceSourcesMembers(stages, aliases, c, curr, 0, a);
    }
  }

  /** One level of the trace: the path itself credited to the stage, or what a feeding copy's sources yield. */
  lemma TraceMembers(stages: seq<Stage>, aliases: map<string, nat>, source: string, curr: nat, a: Attribution)
    requires Graph(stages, aliases) && curr < |stages|
    ensures a in Trace(stages, aliases, source, curr) <==>
      || (a == Attribution(BuilderStage(curr), source) && (IsDirectory(source) || !AnyFeeds(stages[curr].copies, source)))
      || exists c :: c in stages[curr].copies && CopyYields(stages, aliases, c, source, a)
  {
    TraceCopiesMembers(stages, aliases, source, curr, 0, a);
    if exists c :: c in stages[curr].copies && CopyYields(stages, aliases, c, source, a) {
      var c :| c in stages[curr].copies && CopyYields(stages, aliases, c, source, a);
      var j :| 0 <= j < |stages[curr].copies| && stages[curr].copies[j] == c;
    }
  }

  /** A step back from a point is a walk of two points. */
  lemma PathPrepend(stages: seq<Stage>, aliases: map<string, nat>, p: Point, ch: seq<Point>)
    requires Graph(stages, aliases)
    requires IsTracePath(stages, aliases, ch) && TraceStep(stages, aliases, p, ch[0])
    ensures IsTracePath(stages, aliases, [p] + ch)
    ensures ([p] + ch)[0] == p && ([p] + ch)[|[p] + ch| - 1] == ch[|ch| - 1]
  {
    var ch' := [p] + ch;
    forall j | 0 <= j < |ch'| - 1 ensures TraceStep(stages, aliases, ch'[j], ch'[j + 1]) {
      if j > 0 {
        assert ch'[j] == ch[j - 1] && ch'[j + 1] == ch[j];
      }
    }
  }

  /** The walk after its first step is a walk. */
  lemma PathTail(stages: seq<Stage>, aliases: map<string, nat>, ch: seq<Point>)
    requires Graph(stages, aliases)
    requires IsTracePath(stages, aliases, ch) && |ch| > 1
    ensures TraceStep(stages, aliases, ch[0], ch[1])
    ensures IsTracePath(stages, aliases, ch[1..]) && ch[1..][0] == ch[1] && ch[1..][|ch| - 2] == ch[|ch| - 1]
  {
    assert TraceStep(stages, aliases, ch[0], ch[1]);
    var c :| c in stages[ch[0].stage].copies && Feeds(c, ch[0].path) && c.from in aliases
      && aliases[c.from] == ch[1].stage && ch[1].path in c.sources;
    forall j | 0 <= j < |ch[1..]| - 1 ensures TraceStep(stages, aliases, ch[1..][j], ch[1..][j + 1]) {
      assert TraceStep(stages, aliases, ch[j + 1], ch[j + 2]);
    }
  }

  /** A walk back from the traced point to every attribution of a trace. */
  lemma {:induction false} TraceWalkOf(stages: seq<Stage>, aliases: map<string, nat>, source: string, curr: nat, a: Attribution)
    returns (ch: seq<Point>)
    requires Graph(stages, aliases) && curr < |stages|
    requires a in Trace(stages, aliases, source, curr)
    ensures IsTracePath(stages, aliases, ch) && ch[0] == Point(curr, source)
    ensures EndsIn(stages, aliases, ch[|ch| - 1], a)
    decreases curr
  {
    var p := Point(curr, source);
    TraceMembers(stages, aliases, source, curr, a);
    if exists c :: c in stages[curr].copies && CopyYields(stages, aliases, c, source, a) {
      var c :| c in stages[curr].copies && CopyYields(stages, aliases, c, source, a);
      var m :| 0 <= m < |c.sources| && SourceYields(stages, aliases, c, c.sources[m], a);
      if c.from in aliases {
        var q := Point(aliases[c.from], c.sources[m]);
        var rest := TraceWalkOf(stages, aliases, q.path, q.stage, a);
        ch := WalkBack(stages, aliases, p, c, m, rest, a);
      } else {
        ch := [p];
        ImageEnd(stages, aliases, p, c, m, a);
      }
    } else {
      ch := [p];
      OwnEnd(stages, aliases, p, a);
    }
  }

  /** The path credited to its own stage ends the walk that stays at it. */
  lemma OwnEnd(stages: seq<Stage>, aliases: map<string, nat>, p: Point, a: Attribution)
    requires p.stage < |stages|
    requires a == Attribution(BuilderStage(p.stage), p.path)
    requires IsDirectory(p.path) || !AnyFeeds(stages[p.stage].copies, p.path)
    ensures IsTracePath(stages, aliases, [p]) && EndsIn(stages, aliases, p, a)
  {
  }

  /** A walk from the `m`-th source of a copy that may have brought in `p`'s path, preceded by `p`. */
  lemma WalkBack(stages: seq<Stage>, aliases: map<string, nat>, p: Point, c: Copy, m: nat, rest: seq<Point>, a: Attribution)
    returns (ch: seq<Point>)
    requires Graph(stages, aliases) && p.stage < |stages|
    requires c in stages[p.stage].copies && Feeds(c, p.path) && c.from in aliases && m < |c.sources|
    requires IsTracePath(stages, aliases, rest) && rest[0] == Point(aliases[c.from], c.sources[m])
    requires EndsIn(stages, aliases, rest[|rest| - 1], a)
    ensures IsTracePath(stages, aliases, ch) && ch[0] == p
    ensures EndsIn(stages, aliases, ch[|ch| - 1], a)
  {
    assert TraceStep(stages, aliases, p, rest[0]);
    PathPrepend(stages, aliases, p, rest);
    ch := [p] + rest;
  }

  /** A copy straight from an image that may have brought in `p`'s path ends the walk at `p` in each of its sources. */
  lemma ImageEnd(stages: seq<Stage>, aliases: map<string, nat>, p: Point, c: Copy, m: nat, a: Attribution)
    requires Graph(stages, aliases) && p.stage < |stages|
    requires c in stages[p.stage].copies && Feeds(c, p.path) && c.from !in aliases && m < |c.sources|
    requires a == Attribution(ExternalImage(c.from), c.sources[m])
    ensures IsTracePath(stages, aliases, [p]) && EndsIn(stages, aliases, p, a)
  {
    assert a.path in c.sources;
  }

  /** The attribution a walk back from a point ends in is part of that point's trace. */
  lemma {:induction false} TraceWalkComplete(stages: seq<Stage>, aliases: map<string, nat>, ch: seq<Point>, a: Attribution)
    requires Graph(stages, aliases)
    requires IsTracePath(stages, aliases, ch) && EndsIn(stages, aliases, ch[|ch| - 1], a)
    ensures a in Trace(stages, aliases, ch[0].path, ch[0].stage)
    decreases |ch|
  {
    var p := ch[0];
    TraceMembers(stages, aliases, p.path, p.stage, a);
    if |ch| == 1 {
      if a.origin.ExternalImage? {
        var c :| c in stages[p.stage].copies && Feeds(c, p.path) && c.from !in aliases
          && c.from == a.origin.pullspec && a.path in c.sources;
        var m :| 0 <= m < |c.sources| && c.sources[m] == a.path;
        assert SourceYields(stages, aliases, c, c.sources[m], a);
        assert CopyYields(stages, aliases, c, p.path, a);
      }
    } else {
      PathTail(stages, aliases, ch);
      var q := ch[1];
      var c :| c in stages[p.stage].copies && Feeds(c, p.path) && c.from in aliases
        && aliases[c.from] == q.stage && q.path in c.sources;
      TraceWalkComplete(stages, aliases, ch[1..], a);
      var m :| 0 <= m < |c.sources| && c.sources[m] == q.path;
      assert SourceYields(stages, aliases, c, c.sources[m], a);
      assert CopyYields(stages, aliases, c, p.path, a);
    }
  }

  /**
   * What tracing `source` in stage `curr` attributes, and to whom: exactly the ends of
   * the walks back from that point through copies that may have brought the path in.
   */
  lemma TraceWalks(stages: seq<Stage>, aliases: map<string, nat>, source: string, curr: nat, a: Attribution)
    requires Graph(stages, aliases) && curr < |stages|
    ensures a in Trace(stages, aliases, source, curr) <==>
      exists ch :: IsTracePath(stages, aliases, ch) && ch[0] == Point(curr, source)
        && EndsIn(stages, aliases, ch[|ch| - 1], a)
  {
    if a in Trace(stages, aliases, source, curr) {
      var ch := TraceWalkOf(stages, aliases, source, curr, a);
    }
    if exists ch :: IsTracePath(stages, aliases, ch) && ch[0] == Point(curr, source)
        && EndsIn(stages, aliases, ch[|ch| - 1], a) {
      var ch :| IsTracePath(stages, aliases, ch) && ch[0] == Point(curr, source)
        && EndsIn(stages, aliases, ch[|ch| - 1], a);
      TraceWalkComplete(stages, aliases, ch, a);
    }
  }

  // ---------------------------------------------------------------------------
  // Package sources
  // ---------------------------------------------------------------------------

  /** The traces of the final stage's copies from the `k`-th on, source by source. */
  function FinalLog(stages: seq<Stage>, aliases: map<string, nat>, k: nat): (r: seq<Attribution>)
    requires |stages| > 0 && Graph(stages, aliases) && k <= |stages[|stages| - 1].copies|
    ensures forall j :: 0 <= j < |r| ==>
      BuilderBelow(r[j], |stages| - 1) && ExternalKnown(stages, aliases, r[j], |stages|)
    decreases |stages[|stages| - 1].copies| - k
  {
    var final := |stages| - 1;
    if k == |stages[final].copies| then []
    else TraceSources(stages, aliases, stages[final].copies[k], final, 0) + FinalLog(stages, aliases, k + 1)
  }

  /** Everything the copies into the final stage trace to. */
  function PackageLog(stages: seq<Stage>): (r: seq<Attribution>)
    requires |stages| > 0 && Acyclic(stages)
    ensures forall j :: 0 <= j < |r| ==>
      BuilderBelow(r[j], |stages| - 1) && ExternalKnown(stages, Aliases(stages), r[j], |stages|)
  {
    FinalLog(stages, Aliases(stages), 0)
  }

  /** What is scanned for one builder stage or one path copied from an image. */
  datatype PackageSource = PackageSource(alias: string, pullspec: string, digestPullspec: string, sources: seq<string>)

  datatype ScanError = ErrPullspecResolve(pullspec: string)

  /** The builder package source of stage `i`: its accumulator entry, under its resolved pullspec. */
  predicate IsBuilderSource(ps: PackageSource, stages: seq<Stage>, log: seq<Attribution>, resolved: map<string, string>, i: nat)
    requires i < |stages|
  {
    && stages[i].pullspec in resolved
    && ps == PackageSource(stages[i].alias, stages[i].pullspec, resolved[stages[i].pullspec], Own(log, BuilderStage(i)))
  }

  /** The package source of one attribution to an image: no alias, that single path. */
  predicate IsExternalSource(ps: PackageSource, a: Attribution, resolved: map<string, string>)
    requires a.origin.ExternalImage?
  {
    && a.origin.pullspec in resolved
    && ps == PackageSource("", a.origin.pullspec, resolved[a.origin.pullspec], [a.path])
  }

  /** The builder package sources of the non-final stages from `i` on; fails at the first unresolved pullspec. */
  function BuilderSources(stages: seq<Stage>, log: seq<Attribution>, resolved: map<string, string>, i: nat): (r: Result<seq<PackageSource>, ScanError>)
    requires i < |stages|
    ensures r.Success? <==> forall j :: i <= j < |stages| - 1 ==> stages[j].pullspec in resolved
    ensures r.Failure? ==> exists j :: i <= j < |stages| - 1 && stages[j].pullspec == r.error.pullspec && r.error.pullspec !in resolved
    ensures r.Success? ==> |r.value| == |stages| - 1 - i
    ensures r.Success? ==> forall j :: 0 <= j < |r.value| ==> IsBuilderSource(r.value[j], stages, log, resolved, i + j)
    decreases |stages| - i
  {
    if i == |stages| - 1 then Success([])
    else if stages[i].pullspec !in resolved then Failure(ErrPullspecResolve(stages[i].pullspec))
    else
      var head := PackageSource(stages[i].alias, stages[i].pullspec, resolved[stages[i].pullspec], Own(log, BuilderStage(i)));
      var rest :- BuilderSources(stages, log, resolved, i + 1);
      assert forall j :: 1 <= j < |rest| + 1 ==> IsBuilderSource(([head] + rest)[j], stages, log, resolved, i + j) by {
        forall j | 1 <= j < |rest| + 1 ensures IsBuilderSource(([head] + rest)[j], stages, log, resolved, i + j) {
          assert IsBuilderSource(rest[j - 1], stages, log, resolved, (i + 1) + (j - 1));
        }
      }
      Success([head] + rest)
  }

  /** One package source per attribution to an image, in order; fails at the first unresolved image. */
  function ExternalSources(ext: seq<Attribution>, resolved: map<string, string>): (r: Result<seq<PackageSource>, ScanError>)
    requires forall j :: 0 <= j < |ext| ==> ext[j].origin.ExternalImage?
    ensures r.Success? <==> forall j :: 0 <= j < |ext| ==> ext[j].origin.pullspec in resolved
    ensures r.Failure? ==> exists j :: 0 <= j < |ext| && ext[j].origin.pullspec == r.error.pullspec && r.error.pullspec !in resolved
    ensures r.Success? ==> |r.value| == |ext|
    ensures r.Success? ==> forall j :: 0 <= j < |ext| ==> IsExternalSource(r.value[j], ext[j], resolved)
    decreases |ext|
  {
    if ext == [] then Success([])
    else if ext[0].origin.pullspec !in resolved then Failure(ErrPullspecResolve(ext[0].origin.pullspec))
    else
      var head := PackageSource("", ext[0].origin.pullspec, resolved[ext[0].origin.pullspec], [ext[0].path]);
      var rest :- ExternalSources(ext[1..], resolved);
      assert forall j :: 1 <= j < |ext| ==> IsExternalSource(([head] + rest)[j], ext[j], resolved) by {
        forall j | 1 <= j < |ext| ensures IsExternalSource(([head] + rest)[j], ext[j], resolved) {
          assert ext[1..][j - 1] == ext[j];
        }
      }
      Success([head] + rest)
  }

  /** Every external attribution of the log is resolved exactly when every external image of the log is. */
  lemma ExternalsResolved(log: seq<Attribution>, resolved: map<string, string>)
    ensures (forall j :: 0 <= j < |Externals(log)| ==> Externals(log)[j].origin.pullspec in resolved) <==>
      (forall a :: a in log && a.origin.ExternalImage? ==> a.origin.pullspec in resolved)
  {
    ExternalsMembers(log);
    if forall j :: 0 <= j < |Externals(log)| ==> Externals(log)[j].origin.pullspec in resolved {
      forall a | a in log && a.origin.ExternalImage? ensures a.origin.pullspec in resolved {
        assert a in Externals(log);
      }
    } else {
      var j :| 0 <= j < |Externals(log)| && Externals(log)[j].origin.pullspec !in resolved;
      assert Externals(log)[j] in log;
    }
  }

  /**
   * The package sources: one per non-final stage, in stage order, carrying what the
   * final stage's copies trace to it (possibly nothing); then one per attribution to an
   * image. A stage or image whose pullspec was not resolved fails the whole call.
   */
  function GetPackageSources(stages: seq<Stage>, resolved: map<string, string>): (r: Result<seq<PackageSource>, ScanError>)
    requires |stages| > 0 && Acyclic(stages)
    ensures r.Success? <==>
      && (forall j :: 0 <= j < |stages| - 1 ==> stages[j].pullspec in resolved)
      && (forall a :: a in PackageLog(stages) && a.origin.ExternalImage? ==> a.origin.pullspec in resolved)
    ensures r.Failure? ==> r.error.pullspec !in resolved
    ensures r.Success? ==>
      var log := PackageLog(stages);
      var ext := Externals(log);
      && |r.value| == |stages| - 1 + |ext|
      && (forall j :: 0 <= j < |stages| - 1 ==> IsBuilderSource(r.value[j], stages, log, resolved, j))
      && (forall j :: 0 <= j < |ext| ==> IsExternalSource(r.value[|stages| - 1 + j], ext[j], resolved))
  {
    var log := PackageLog(stages);
    var ext := Externals(log);
    ExternalsResolved(log, resolved);
    var builders :- BuilderSources(stages, log, resolved, 0);
    var externals :- ExternalSources(ext, resolved);
    Success(builders + externals)
  }

  // ---------------------------------------------------------------------------
  // What the package sources contain
  // ---------------------------------------------------------------------------

  /** The trace of every source of a copy from the `k`-th on is part of the copy's trace. */
  lemma {:induction false} TraceSourcesCovers(stages: seq<Stage>, aliases: map<string, nat>, c: Copy, curr: nat, k: nat, m: nat)
    requires Graph(stages, aliases) && curr < |stages| && c in stages[curr].copies && k <= m < |c.sources|
    ensures c.from !in aliases ==>
      Attribution(ExternalImage(c.from), c.sources[m]) in TraceSources(stages, aliases, c, curr, k)
    ensures c.from in aliases ==> forall a :: a in Trace(stages, aliases, c.sources[m], aliases[c.from]) ==>
      a in TraceSources(stages, aliases, c, curr, k)
    decreases m - k
  {
    TraceSourcesUnfold(stages, aliases, c, curr, k);
    if k < m {
      TraceSourcesCovers(stages, aliases, c, curr, k + 1, m);
    }
  }

  /** The traces from the `k`-th source on hold the `k`-th source's trace and all the later ones. */
  lemma TraceSourcesUnfold(stages: seq<Stage>, aliases: map<string, nat>, c: Copy, curr: nat, k: nat)
    requires Graph(stages, aliases) && curr < |stages| && c in stages[curr].copies && k < |c.sources|
    ensures forall a :: a in TraceSources(stages, aliases, c, curr, k + 1) ==> a in TraceSources(stages, aliases, c, curr, k)
    ensures c.from !in aliases ==>
      Attribution(ExternalImage(c.from), c.sources[k]) in TraceSources(stages, aliases, c, curr, k)
    ensures c.from in aliases ==> forall a :: a in Trace(stages, aliases, c.sources[k], aliases[c.from]) ==>
      a in TraceSources(stages, aliases, c, curr, k)
  {
  }

  /** The trace of every final-stage copy from the `k`-th on is part of the final log. */
  lemma {:induction false} FinalLogCovers(stages: seq<Stage>, aliases: map<string, nat>, k: nat, m: nat)
    requires |stages| > 0 && Graph(stages, aliases) && k <= m < |stages[|stages| - 1].copies|
    ensures forall a :: a in TraceSources(stages, aliases, stages[|stages| - 1].copies[m], |stages| - 1, 0) ==>
      a in FinalLog(stages, aliases, k)
    decreases m - k
  {
    if k < m {
      FinalLogCovers(stages, aliases, k + 1, m);
    }
  }

  /** Every path the final stage copies straight from an image is attributed to that image. */
  lemma ExternalCopyAttributed(stages: seq<Stage>, k: nat, m: nat)
    requires |stages| > 0 && Acyclic(stages)
    requires k < |stages[|stages| - 1].copies| && m < |stages[|stages| - 1].copies[k].sources|
    requires stages[|stages| - 1].copies[k].from !in Aliases(stages)
    ensures var c := stages[|stages| - 1].copies[k];
      Attribution(ExternalImage(c.from), c.sources[m]) in PackageLog(stages)
  {
    var final := |stages| - 1;
    TraceSourcesCovers(stages, Aliases(stages), stages[final].copies[k], final, 0, m);
    FinalLogCovers(stages, Aliases(stages), 0, k);
  }

  /**
   * A path the final stage copies from a builder stage is attributed to that stage when
   * it is a directory or no copy of that stage brought it in.
   */
  lemma BuilderCopyAttributed(stages: seq<Stage>, k: nat, m: nat)
    requires |stages| > 0 && Acyclic(stages)
    requires k < |stages[|stages| - 1].copies| && m < |stages[|stages| - 1].copies[k].sources|
    requires stages[|stages| - 1].copies[k].from in Aliases(stages)
    requires var c := stages[|stages| - 1].copies[k];
      IsDirectory(c.sources[m]) || !AnyFeeds(stages[Aliases(stages)[c.from]].copies, c.sources[m])
    ensures var c := stages[|stages| - 1].copies[k];
      c.sources[m] in Own(PackageLog(stages), BuilderStage(Aliases(stages)[c.from]))
  {
    var final := |stages| - 1;
    var aliases := Aliases(stages);
    var c := stages[final].copies[k];
    var b := aliases[c.from];
    OwnEntry(stages, aliases, c.sources[m], b);
    OwnMembers(Trace(stages, aliases, c.sources[m], b), BuilderStage(b));
    assert c.sources[m] in Own(Trace(stages, aliases, c.sources[m], b), BuilderStage(b));
    TraceSourcesCovers(stages, aliases, c, final, 0, m);
    FinalLogCovers(stages, aliases, 0, k);
    OwnMembers(PackageLog(stages), BuilderStage(b));
  }

  /**
   * Once assembled, the package source of the builder stage a final-stage copy names
   * scans each source of that copy which is a directory or which no copy of that stage
   * brought in.
   */
  lemma BuilderCopyScanned(stages: seq<Stage>, resolved: map<string, string>, k: nat, m: nat)
    requires |stages| > 0 && Acyclic(stages)
    requires GetPackageSources(stages, resolved).Success?
    requires k < |stages[|stages| - 1].copies| && m < |stages[|stages| - 1].copies[k].sources|
    requires stages[|stages| - 1].copies[k].from in Aliases(stages)
    requires var c := stages[|stages| - 1].copies[k];
      IsDirectory(c.sources[m]) || !AnyFeeds(stages[Aliases(stages)[c.from]].copies, c.sources[m])
    ensures var c := stages[|stages| - 1].copies[k];
      var b := Aliases(stages)[c.from];
      var ps := GetPackageSources(stages, resolved).value[b];
      ps.alias == stages[b].alias && c.sources[m] in ps.sources
  {
    var c := stages[|stages| - 1].copies[k];
    var b := Aliases(stages)[c.from];
    BuilderCopyAttributed(stages, k, m);
    assert IsBuilderSource(GetPackageSources(stages, resolved).value[b], stages, PackageLog(stages), resolved, b);
  }

  /**
   * Once assembled, every path the final stage copies straight from an image has a
   * package source of its own: no alias, the image's pullspec, that path alone.
   */
  lemma ExternalCopyScanned(stages: seq<Stage>, resolved: map<string, string>, k: nat, m: nat)
    requires |stages| > 0 && Acyclic(stages)
    requires GetPackageSources(stages, resolved).Success?
    requires k < |stages[|stages| - 1].copies| && m < |stages[|stages| - 1].copies[k].sources|
    requires stages[|stages| - 1].copies[k].from !in Aliases(stages)
    ensures var c := stages[|stages| - 1].copies[k];
      var r := GetPackageSources(stages, resolved).value;
      && c.from in resolved
      && exists j :: |stages| - 1 <= j < |r| && r[j] == PackageSource("", c.from, resolved[c.from], [c.sources[m]])
  {
    var c := stages[|stages| - 1].copies[k];
    var log := PackageLog(stages);
    ExternalCopyAttributed(stages, k, m);
    var a := Attribution(ExternalImage(c.from), c.sources[m]);
    ExternalsMembers(log);
    var ext := Externals(log);
    var i :| 0 <= i < |ext| && ext[i] == a;
    var r := GetPackageSources(stages, resolved).value;
    assert IsExternalSource(r[|stages| - 1 + i], ext[i], resolved);
  }

  /** How often `p` is attributed to `o`. */
  function Count(log: seq<Attribution>, o: Origin, p: string): nat
    decreases |log|
  {
    if log == [] then 0 else (if log[0] == Attribution(o, p) then 1 else 0) + Count(log[1..], o, p)
  }

  /** How often `p` is attributed to one of the first `m` builder stages. */
  function BuilderCount(log: seq<Attribution>, m: nat, p: string): nat
    decreases m
  {
    if m == 0 then 0 else BuilderCount(log, m - 1, p) + Count(log, BuilderStage(m - 1), p)
  }

  /** How often `p` is attributed to an image. */
  function ExternalCount(log: seq<Attribution>, p: string): nat
    decreases |log|
  {
    if log == [] then 0
    else (if log[0].origin.ExternalImage? && log[0].path == p then 1 else 0) + ExternalCount(log[1..], p)
  }

  /** How often `p` is attributed at all. */
  function PathCount(log: seq<Attribution>, p: string): nat
    decreases |log|
  {
    if log == [] then 0 else (if log[0].path == p then 1 else 0) + PathCount(log[1..], p)
  }

  lemma {:induction false} OwnCount(log: seq<Attribution>, o: Origin, p: string)
    ensures multiset(Own(log, o))[p] == Count(log, o, p)
    decreases |log|
  {
    if log != [] {
      OwnCount(log[1..], o, p);
      var h := if log[0].origin == o then [log[0].path] else [];
      assert multiset(Own(log, o)) == multiset(h) + multiset(Own(log[1..], o));
    }
  }

  lemma {:induction false} PathCountOf(log: seq<Attribution>, p: string)
    ensures multiset(PathsOf(log))[p] == PathCount(log, p)
    decreases |log|
  {
    if log != [] {
      PathCountOf(log[1..], p);
      assert PathsOf(log) == [log[0].path] + PathsOf(log[1..]);
    }
  }

  lemma {:induction false} ExternalCountOf(log: seq<Attribution>, p: string)
    ensures multiset(PathsOf(Externals(log)))[p] == ExternalCount(log, p)
    decreases |log|
  {
    if log != [] {
      ExternalCountOf(log[1..], p);
      var h := if log[0].origin.ExternalImage? then [log[0]] else [];
      assert PathsOf(Externals(log)) == PathsOf(h) + PathsOf(Externals(log[1..]));
    }
  }

  lemma {:induction false} BuilderCountCons(log: seq<Attribution>, m: nat, p: string)
    requires log != []
    ensures BuilderCount(log, m, p) == BuilderCount(log[1..], m, p) +
      (if log[0].origin.BuilderStage? && log[0].origin.index < m && log[0].path == p then 1 else 0)
    decreases m
  {
    if m > 0 {
      BuilderCountCons(log, m - 1, p);
    }
  }

  /**
   * When every stage an entry names is below `m`, each path is attributed as often to
   * the first `m` builder stages and the images together as it is attributed at all.
   */
  lemma {:induction false} LogConserved(log: seq<Attribution>, m: nat, p: string)
    requires forall j :: 0 <= j < |log| ==> BuilderBelow(log[j], m)
    ensures BuilderCount(log, m, p) + ExternalCount(log, p) == PathCount(log, p)
    decreases |log|
  {
    if log == [] {
      BuilderCountEmpty(m, p);
    } else {
      assert forall j :: 0 <= j < |log[1..]| ==> BuilderBelow(log[1..][j], m) by {
        forall j | 0 <= j < |log[1..]| ensures BuilderBelow(log[1..][j], m) {
          assert log[1..][j] == log[j + 1];
        }
      }
      LogConserved(log[1..], m, p);
      BuilderCountCons(log, m, p);
      assert BuilderBelow(log[0], m);
    }
  }

  lemma {:induction false} BuilderCountEmpty(m: nat, p: string)
    ensures BuilderCount([], m, p) == 0
    decreases m
  {
    if m > 0 {
      BuilderCountEmpty(m - 1, p);
    }
  }

  /** All the paths a list of package sources has scanned, in order. */
  function AllSources(ps: seq<PackageSource>): seq<string>
    decreases |ps|
  {
    if ps == [] then [] else AllSources(ps[..|ps| - 1]) + ps[|ps| - 1].sources
  }

  lemma {:induction false} AllSourcesAppend(a: seq<PackageSource>, b: seq<PackageSource>)
    ensures AllSources(a + b) == AllSources(a) + AllSources(b)
    decreases |b|
  {
    if b == [] {
      assert a + b == a;
    } else {
      var n := |b| - 1;
      assert (a + b)[..|a + b| - 1] == a + b[..n];
      AllSourcesAppend(a, b[..n]);
      Paths.AppendAssoc(AllSources(a), AllSources(b[..n]), b[n].sources);
    }
  }

  /** The sources of the first `m` package sources end with those of the `m`-th. */
  lemma AllSourcesSnoc(ps: seq<PackageSource>, m: nat)
    requires 0 < m <= |ps|
    ensures AllSources(ps[..m]) == AllSources(ps[..m - 1]) + ps[m - 1].sources
  {
    var q := ps[..m];
    assert q[..|q| - 1] == ps[..m - 1] && q[|q| - 1] == ps[m - 1];
  }

  lemma MultisetAppendCount(front: seq<string>, last: seq<string>, p: string)
    ensures multiset(front + last)[p] == multiset(front)[p] + multiset(last)[p]
  {
  }

  /** Adding the `m`-th builder's sources adds its own count of `p`. */
  lemma BuilderSourcesStep(ps: seq<PackageSource>, log: seq<Attribution>, m: nat, p: string)
    requires 0 < m <= |ps|
    requires multiset(AllSources(ps[..m - 1]))[p] == BuilderCount(log, m - 1, p)
    requires ps[m - 1].sources == Own(log, BuilderStage(m - 1))
    ensures multiset(AllSources(ps[..m]))[p] == BuilderCount(log, m, p)
  {
    AllSourcesSnoc(ps, m);
    MultisetAppendCount(AllSources(ps[..m - 1]), ps[m - 1].sources, p);
    OwnCount(log, BuilderStage(m - 1), p);
  }

  lemma {:induction false} BuilderSourcesConserved(ps: seq<PackageSource>, log: seq<Attribution>, m: nat, p: string)
    requires m <= |ps|
    requires forall j :: 0 <= j < m ==> ps[j].sources == Own(log, BuilderStage(j))
    ensures multiset(AllSources(ps[..m]))[p] == BuilderCount(log, m, p)
    decreases m
  {
    if m > 0 {
      BuilderSourcesConserved(ps, log, m - 1, p);
      BuilderSourcesStep(ps, log, m, p);
    }
  }

  lemma {:induction false} ExternalSourcesConserved(ps: seq<PackageSource>, ext: seq<Attribution>, m: nat)
    requires m <= |ps| && m <= |ext|
    requires forall j :: 0 <= j < m ==> ps[j].sources == [ext[j].path]
    ensures AllSources(ps[..m]) == PathsOf(ext[..m])
    decreases m
  {
    if m > 0 {
      ExternalSourcesConserved(ps, ext, m - 1);
      assert ps[..m][..m - 1] == ps[..m - 1];
      assert PathsOf(ext[..m]) == PathsOf(ext[..m - 1]) + [ext[m - 1].path];
    }
  }

  /**
   * Nothing traced is lost and nothing is invented: the package sources together scan
   * exactly the paths the final stage's copies trace to, each as often as it is traced.
   */
  lemma SourcesConserved(stages: seq<Stage>, resolved: map<string, string>)
    requires |stages| > 0 && Acyclic(stages)
    requires GetPackageSources(stages, resolved).Success?
    ensures multiset(AllSources(GetPackageSources(stages, resolved).value)) == multiset(PathsOf(PackageLog(stages)))
  {
    PackageLayout(stages, resolved);
    SplitConserved(GetPackageSources(stages, resolved).value, PackageLog(stages), |stages| - 1);
  }

  /** The paths each package source carries, read off GetPackageSources's contract. */
  lemma PackageLayout(stages: seq<Stage>, resolved: map<string, string>)
    requires |stages| > 0 && Acyclic(stages)
    requires GetPackageSources(stages, resolved).Success?
    ensures forall j :: 0 <= j < |PackageLog(stages)| ==> BuilderBelow(PackageLog(stages)[j], |stages| - 1)
    ensures |GetPackageSources(stages, resolved).value| == |stages| - 1 + |Externals(PackageLog(stages))|
    ensures forall j :: 0 <= j < |stages| - 1 ==>
      GetPackageSources(stages, resolved).value[j].sources == Own(PackageLog(stages), BuilderStage(j))
    ensures forall j :: 0 <= j < |Externals(PackageLog(stages))| ==>
      GetPackageSources(stages, resolved).value[|stages| - 1 + j].sources == [Externals(PackageLog(stages))[j].path]
  {
    forall j | 0 <= j < |stages| - 1
      ensures GetPackageSources(stages, resolved).value[j].sources == Own(PackageLog(stages), BuilderStage(j))
    {
      assert IsBuilderSource(GetPackageSources(stages, resolved).value[j], stages, PackageLog(stages), resolved, j);
    }
    forall j | 0 <= j < |Externals(PackageLog(stages))|
      ensures GetPackageSources(stages, resolved).value[|stages| - 1 + j].sources == [Externals(PackageLog(stages))[j].path]
    {
      assert IsExternalSource(GetPackageSources(stages, resolved).value[|stages| - 1 + j], Externals(PackageLog(stages))[j], resolved);
    }
  }

  /** Sources laid out as builder entries then one per image attribution scan exactly the log's paths. */
  lemma SplitConserved(r: seq<PackageSource>, log: seq<Attribution>, nb: nat)
    requires forall j :: 0 <= j < |log| ==> BuilderBelow(log[j], nb)
    requires |r| == nb + |Externals(log)|
    requires forall j :: 0 <= j < nb ==> r[j].sources == Own(log, BuilderStage(j))
    requires forall j :: 0 <= j < |Externals(log)| ==> r[nb + j].sources == [Externals(log)[j].path]
    ensures multiset(AllSources(r)) == multiset(PathsOf(log))
  {
    SplitSources(r, log, nb);
    forall p | true
      ensures multiset(AllSources(r))[p] == multiset(PathsOf(log))[p]
    {
      BuilderSourcesConserved(r, log, nb, p);
      ExternalCountOf(log, p);
      LogConserved(log, nb, p);
      PathCountOf(log, p);
    }
  }

  lemma SplitSources(r: seq<PackageSource>, log: seq<Attribution>, nb: nat)
    requires |r| == nb + |Externals(log)|
    requires forall j :: 0 <= j < |Externals(log)| ==> r[nb + j].sources == [Externals(log)[j].path]
    ensures AllSources(r) == AllSources(r[..nb]) + PathsOf(Externals(log))
  {
    AllSourcesSplit(r, nb);
    ExternalSourcesAll(r[nb..], Externals(log));
  }

  lemma AllSourcesSplit(r: seq<PackageSource>, nb: nat)
    requires nb <= |r|
    ensures AllSources(r) == AllSources(r[..nb]) + AllSources(r[nb..])
  {
    assert r == r[..nb] + r[nb..];
    AllSourcesAppend(r[..nb], r[nb..]);
  }

  lemma ExternalSourcesAll(e: seq<PackageSource>, ext: seq<Attribution>)
    requires |e| == |ext|
    requires forall j :: 0 <= j < |ext| ==> e[j].sources == [ext[j].path]
    ensures AllSources(e) == PathsOf(ext)
  {
    ExternalSourcesConserved(e, ext, |ext|);
    assert e[..|ext|] == e;
    assert ext[..|ext|] == ext;
  }

  // ---------------------------------------------------------------------------
  // Pinning pullspecs to digests
  // ---------------------------------------------------------------------------

  /**
   * Looking a pullspec up in the image store and rewriting it to carry the image's
   * digest instead of a tag; None when the lookup or the rewriting fails.
   */
  type Resolver = string -> Option<string>

  /** Every entry of the map is what the resolver gives for its key. */
  predicate Faithful(res: map<string, string>, resolve: Resolver) {
    forall k :: k in res ==> resolve(k) == Some(res[k])
  }

  /** The From of every copy that is not of type Builder. */
  function CopyKeys(copies: seq<Copy>): (r: set<string>)
    ensures forall k :: k in r <==> exists c :: c in copies && c.kind != Containerfile.CopyTypeBuilder && c.from == k
    decreases |copies|
  {
    if copies == [] then {}
    else
      var rest := CopyKeys(copies[1..]);
      assert forall c :: c in copies ==> c == copies[0] || c in copies[1..];
      if copies[0].kind == Containerfile.CopyTypeBuilder then rest else {copies[0].from} + rest
  }

  /** What the stages need pinned: each base image and the From of each copy not of type Builder. */
  function StageKeys(stages: seq<Stage>): set<string>
    decreases |stages|
  {
    if stages == [] then {} else {stages[0].pullspec} + CopyKeys(stages[0].copies) + StageKeys(stages[1..])
  }

  lemma {:induction false} StageKeysMembers(stages: seq<Stage>, k: string)
    ensures k in StageKeys(stages) <==>
      (exists i :: 0 <= i < |stages| && stages[i].pullspec == k) ||
      (exists i, c :: 0 <= i < |stages| && c in stages[i].copies && c.kind != Containerfile.CopyTypeBuilder && c.from == k)
    decreases |stages|
  {
    if stages != [] {
      StageKeysMembers(stages[1..], k);
      assert forall i :: 1 <= i < |stages| ==> stages[i] == stages[1..][i - 1];
      if exists i, c :: 0 <= i < |stages| && c in stages[i].copies && c.kind != Containerfile.CopyTypeBuilder && c.from == k {
        var i, c :| 0 <= i < |stages| && c in stages[i].copies && c.kind != Containerfile.CopyTypeBuilder && c.from == k;
        if i > 0 {
          assert c in stages[1..][i - 1].copies;
        }
      }
      if exists i :: 0 <= i < |stages| && stages[i].pullspec == k {
        var i :| 0 <= i < |stages| && stages[i].pullspec == k;
        if i > 0 {
          assert stages[1..][i - 1].pullspec == k;
        }
      }
    }
  }

  /** Pins the From of every copy not of type Builder, overwriting earlier entries; stops at the first failure. */
  function ResolveCopies(copies: seq<Copy>, resolve: Resolver, res: map<string, string>): (r: Result<map<string, string>, ScanError>)
    requires Faithful(res, resolve)
    ensures r.Success? <==> forall k :: k in CopyKeys(copies) ==> resolve(k).Some?
    ensures r.Success? ==> r.value.Keys == res.Keys + CopyKeys(copies) && Faithful(r.value, resolve)
    ensures r.Failure? ==> r.error.pullspec in CopyKeys(copies) && resolve(r.error.pullspec).None?
    decreases |copies|
  {
    if copies == [] then Success(res)
    else if copies[0].kind == Containerfile.CopyTypeBuilder then ResolveCopies(copies[1..], resolve, res)
    else
      match resolve(copies[0].from)
      case None => Failure(ErrPullspecResolve(copies[0].from))
      case Some(digest) => ResolveCopies(copies[1..], resolve, res[copies[0].from := digest])
  }

  /** Pins each stage's base image unless already pinned, then its copies' Froms; stops at the first failure. */
  function ResolveStages(stages: seq<Stage>, resolve: Resolver, res: map<string, string>): (r: Result<map<string, string>, ScanError>)
    requires Faithful(res, resolve)
    ensures r.Success? <==> forall k :: k in StageKeys(stages) ==> resolve(k).Some?
    ensures r.Success? ==> r.value.Keys == res.Keys + StageKeys(stages) && Faithful(r.value, resolve)
    ensures r.Failure? ==> r.error.pullspec in StageKeys(stages) && resolve(r.error.pullspec).None?
    decreases |stages|
  {
    if stages == [] then Success(res)
    else
      var base := stages[0].pullspec;
      var withBase :-
        if base in res then Success(res)
        else match resolve(base)
          case None => Failure(ErrPullspecResolve(base))
          case Some(digest) => Success(res[base := digest]);
      var withCopies :- ResolveCopies(stages[0].copies, resolve, withBase);
      ResolveStages(stages[1..], resolve, withCopies)
  }

  /**
   * The tag-to-digest map as the source builds it: over every stage but the final
   * one, so the final stage's copies straight from an image are never pinned.
   */
  function ResolvePullspecsAsWritten(stages: seq<Stage>, resolve: Resolver): (r: Result<map<string, string>, ScanError>)
    requires |stages| > 0
    ensures r.Success? <==> forall k :: k in StageKeys(stages[..|stages| - 1]) ==> resolve(k).Some?
    ensures r.Success? ==> r.value.Keys == StageKeys(stages[..|stages| - 1]) && Faithful(r.value, resolve)
    ensures r.Failure? ==> r.error.pullspec in StageKeys(stages[..|stages| - 1]) && resolve(r.error.pullspec).None?
  {
    ResolveStages(stages[..|stages| - 1], resolve, map[])
  }

  /** The From of every copy of the final stage that names no builder stage. */
  function FinalKeys(copies: seq<Copy>, aliases: map<string, nat>): (r: set<string>)
    ensures forall k :: k in r <==> exists c :: c in copies && c.from !in aliases && c.from == k
    decreases |copies|
  {
    if copies == [] then {}
    else
      var rest := FinalKeys(copies[1..], aliases);
      assert forall c :: c in copies ==> c == copies[0] || c in copies[1..];
      if copies[0].from in aliases then rest else {copies[0].from} + rest
  }

  /** Pins the From of every final-stage copy that names no builder stage; stops at the first failure. */
  function ResolveFinal(copies: seq<Copy>, aliases: map<string, nat>, resolve: Resolver, res: map<string, string>): (r: Result<map<string, string>, ScanError>)
    requires Faithful(res, resolve)
    ensures r.Success? <==> forall k :: k in FinalKeys(copies, aliases) ==> resolve(k).Some?
    ensures r.Success? ==> r.value.Keys == res.Keys + FinalKeys(copies, aliases) && Faithful(r.value, resolve)
    ensures r.Failure? ==> r.error.pullspec in FinalKeys(copies, aliases) && resolve(r.error.pullspec).None?
    decreases |copies|
  {
    if copies == [] then Success(res)
    else if copies[0].from in aliases then ResolveFinal(copies[1..], aliases, resolve, res)
    else
      match resolve(copies[0].from)
      case None => Failure(ErrPullspecResolve(copies[0].from))
      case Some(digest) => ResolveFinal(copies[1..], aliases, resolve, res[copies[0].from := digest])
  }

  /**
   * The tag-to-digest map with the final stage's copies straight from an image pinned
   * as well, which is what the package sources look up.
   */
  function ResolvePullspecs(stages: seq<Stage>, resolve: Resolver): (r: Result<map<string, string>, ScanError>)
    requires |stages| > 0
    ensures r.Success? <==>
      forall k :: k in StageKeys(stages[..|stages| - 1]) + FinalKeys(stages[|stages| - 1].copies, Aliases(stages)) ==> resolve(k).Some?
    ensures r.Success? ==>
      && r.value.Keys == StageKeys(stages[..|stages| - 1]) + FinalKeys(stages[|stages| - 1].copies, Aliases(stages))
      && Faithful(r.value, resolve)
    ensures r.Failure? ==> resolve(r.error.pullspec).None?
  {
    var res :- ResolvePullspecsAsWritten(stages, resolve);
    ResolveFinal(stages[|stages| - 1].copies, Aliases(stages), resolve, res)
  }

  /** A non-final stage's copy that names no builder stage is of type External, as parsing guarantees. */
  predicate KindsConsistent(stages: seq<Stage>)
    requires |stages| > 0
  {
    forall i, c :: 0 <= i < |stages| - 1 && c in stages[i].copies && c.from !in Aliases(stages) ==>
      c.kind == Containerfile.CopyTypeExternal
  }

  /** Parsed stages are kind-consistent. */
  lemma ParsedKindsConsistent(sel: seq<Containerfile.RawStage>, out: seq<Stage>, expand: Containerfile.Expander)
    requires |sel| > 0 && Containerfile.ParsedFrom(sel, out, expand)
    ensures KindsConsistent(out)
  {
    Containerfile.ParsedAliases(sel, out, expand);
    Containerfile.ParsedCopies(sel, out, expand);
    NamedKindsConsistent(sel, out);
  }

  lemma NamedKindsConsistent(sel: seq<Containerfile.RawStage>, out: seq<Stage>)
    requires 0 < |sel| == |out|
    requires forall k :: 0 <= k < |sel| - 1 ==> out[k].alias == sel[k].name
    requires forall k, c :: 0 <= k < |sel| && c in out[k].copies ==>
      Paths.IsAbs(c.destination) && (c.kind == Containerfile.CopyTypeBuilder <==> c.from in Containerfile.NamesThrough(sel, k))
    ensures KindsConsistent(out)
  {
    var aliases := Aliases(out);
    forall i, c | 0 <= i < |out| - 1 && c in out[i].copies && c.from !in aliases
      ensures c.kind == Containerfile.CopyTypeExternal
    {
      var names := Containerfile.NamesThrough(sel, i);
      assert forall k :: 0 <= k <= i ==> names[k] in aliases by {
        forall k | 0 <= k <= i ensures names[k] in aliases {
          assert out[k].alias == names[k];
        }
      }
      assert c.from !in names;
    }
  }

  /**
   * With every pullspec the corrected map pins resolvable, assembling the package
   * sources cannot fail for want of a pinned pullspec.
   */
  lemma ResolvedSourcesSucceed(stages: seq<Stage>, resolve: Resolver)
    requires |stages| > 0 && Acyclic(stages) && KindsConsistent(stages)
    requires ResolvePullspecs(stages, resolve).Success?
    ensures GetPackageSources(stages, ResolvePullspecs(stages, resolve).value).Success?
  {
    var keys := ResolvePullspecs(stages, resolve).value.Keys;
    StagePullspecsKeyed(stages, keys);
    LogImagesKeyed(stages, keys);
  }

  /** Every stage but the final one has its pullspec among the keys the corrected map resolves. */
  lemma StagePullspecsKeyed(stages: seq<Stage>, keys: set<string>)
    requires |stages| > 0
    requires StageKeys(stages[..|stages| - 1]) <= keys
    ensures forall j :: 0 <= j < |stages| - 1 ==> stages[j].pullspec in keys
  {
    var front := stages[..|stages| - 1];
    forall j | 0 <= j < |stages| - 1 ensures stages[j].pullspec in keys {
      StageKeysMembers(front, stages[j].pullspec);
      assert front[j].pullspec == stages[j].pullspec;
    }
  }

  /** Every image the package log attributes a path to is among the keys the corrected map resolves. */
  lemma LogImagesKeyed(stages: seq<Stage>, keys: set<string>)
    requires |stages| > 0 && Acyclic(stages) && KindsConsistent(stages)
    requires StageKeys(stages[..|stages| - 1]) + FinalKeys(stages[|stages| - 1].copies, Aliases(stages)) <= keys
    ensures forall a :: a in PackageLog(stages) && a.origin.ExternalImage? ==> a.origin.pullspec in keys
  {
    var n := |stages|;
    var aliases := Aliases(stages);
    var front := stages[..n - 1];
    var log := PackageLog(stages);
    forall a | a in log && a.origin.ExternalImage? ensures a.origin.pullspec in keys {
      var j :| 0 <= j < |log| && log[j] == a;
      assert ExternalKnown(stages, aliases, log[j], n);
      var i, c :| 0 <= i < n && c in stages[i].copies && c.from !in aliases && c.from == a.origin.pullspec;
      if i < n - 1 {
        StageKeysMembers(front, c.from);
        assert c in front[i].copies;
      }
    }
  }

  /** A resolver under which every pullspec pins to itself. */
  function PinToSelf(p: string): Option<string> {
    Some(p)
  }

  /**
   * A single final stage copying a file straight from an image: the map as written
   * is empty, so assembling the package sources fails on that image, while the
   * corrected map pins it and yields one package source for the file.
   */
  lemma FinalExternalCounterexample()
    ensures var image := "docker.io/library/fedora:latest";
      var stages := [Containerfile.Stage(Containerfile.FinalStage, "", [
        Containerfile.Copy(["/usr/bin/oras"], "/usr/bin/oras", image, Containerfile.CopyTypeExternal)])];
      && Acyclic(stages)
      && ResolvePullspecsAsWritten(stages, PinToSelf) == Success(map[])
      && GetPackageSources(stages, map[]) == Failure(ErrPullspecResolve(image))
      && ResolvePullspecs(stages, PinToSelf) == Success(map[image := image])
      && GetPackageSources(stages, map[image := image]) == Success([PackageSource("", image, image, ["/usr/bin/oras"])])
  {
    var image := "docker.io/library/fedora:latest";
    var c := Containerfile.Copy(["/usr/bin/oras"], "/usr/bin/oras", image, Containerfile.CopyTypeExternal);
    var stages := [Containerfile.Stage(Containerfile.FinalStage, "", [c])];
    var aliases := Aliases(stages);
    assert aliases == map[];
    assert stages[..0] == [];
    assert TraceSources(stages, aliases, c, 0, 0) == [Attribution(ExternalImage(image), "/usr/bin/oras")];
    assert FinalLog(stages, aliases, 1) == [];
    var log := PackageLog(stages);
    assert log == [Attribution(ExternalImage(image), "/usr/bin/oras")];
    assert Externals(log) == log;
    assert BuilderSources(stages, log, map[], 0) == Success([]);
    assert ExternalSources(log, map[]) == Failure(ErrPullspecResolve(image));
    assert ResolveFinal([c], aliases, PinToSelf, map[]) == Success(map[image := image]);
    var pinned := map[image := image];
    var e := ExternalSources(log, pinned);
    assert e.Success? && |e.value| == 1;
    assert IsExternalSource(e.value[0], log[0], pinned);
    assert e.value == [PackageSource("", image, image, ["/usr/bin/oras"])];
    assert BuilderSources(stages, log, pinned, 0) == Success([]);
    assert [] + e.value == e.value;
  }

  const Fedora: string := "docker.io/library/fedora:latest"
  const Helm: string := "docker.io/alpine/helm:latest"
  const Oras: string := "/usr/bin/oras"
  const FirstHop: Containerfile.Copy := Containerfile.Copy([Oras], Oras, "builder1", Containerfile.CopyTypeBuilder)
  const SecondHop: Containerfile.Copy := Containerfile.Copy([Oras], Oras, "builder2", Containerfile.CopyTypeBuilder)

  /** builder1 has the file, builder2 copies it from builder1, the final stage copies it from builder2. */
  const FileChain: seq<Stage> := [
    Containerfile.Stage("builder1", Fedora, []),
    Containerfile.Stage("builder2", Helm, [FirstHop]),
    Containerfile.Stage(Containerfile.FinalStage, "", [SecondHop])]

  /**
   * A file copied through two builder stages is credited to the stage where no copy
   * brought it in; the stage it merely passed through still gets a (empty) package source.
   */
  lemma FileChainExample()
    ensures Acyclic(FileChain)
    ensures PackageLog(FileChain) == [Attribution(BuilderStage(0), Oras)]
    ensures GetPackageSources(FileChain, map[Fedora := Fedora, Helm := Helm]) == Success([
      PackageSource("builder1", Fedora, Fedora, [Oras]),
      PackageSource("builder2", Helm, Helm, [])])
  {
    FileChainTrace();
    var log := PackageLog(FileChain);
    assert Own(log, BuilderStage(0)) == [Oras];
    assert Own(log, BuilderStage(1)) == [];
    assert Externals(log) == [];
    var resolved := map[Fedora := Fedora, Helm := Helm];
    var second := PackageSource("builder2", Helm, Helm, []);
    var sources := [PackageSource("builder1", Fedora, Fedora, [Oras]), second];
    assert FileChain[1] == Containerfile.Stage("builder2", Helm, [FirstHop]);
    assert FileChain[0] == Containerfile.Stage("builder1", Fedora, []);
    assert BuilderSources(FileChain, log, resolved, 2) == Success([]);
    assert [second] + [] == [second];
    assert BuilderSources(FileChain, log, resolved, 1) == Success([second]);
    assert [sources[0]] + [second] == sources;
    assert BuilderSources(FileChain, log, resolved, 0) == Success(sources);
    assert ExternalSources([], resolved) == Success([]);
    assert sources + [] == sources;
  }

  lemma FileChainAliases()
    ensures Aliases(FileChain) == map["builder1" := 0, "builder2" := 1]
    ensures Acyclic(FileChain)
  {
    assert AliasIndex(FileChain, 0) == map[];
    assert AliasIndex(FileChain, 1) == map["builder1" := 0];
    assert AliasIndex(FileChain, 2) == map["builder1" := 0, "builder2" := 1];
  }

  lemma FileChainTrace()
    ensures Acyclic(FileChain)
    ensures PackageLog(FileChain) == [Attribution(BuilderStage(0), Oras)]
  {
    FileChainAliases();
    var aliases := Aliases(FileChain);
    var credited := [Attribution(BuilderStage(0), Oras)];
    assert Trace(FileChain, aliases, Oras, 0) == credited;
    assert TraceSources(FileChain, aliases, FirstHop, 1, 0) == credited;
    assert TraceCopies(FileChain, aliases, Oras, 1, 0) == credited;
    assert AnyFeeds(FileChain[1].copies, Oras);
    assert Trace(FileChain, aliases, Oras, 1) == credited;
    assert TraceSources(FileChain, aliases, SecondHop, 2, 0) == credited;
    assert FinalLog(FileChain, aliases, 1) == [];
  }

  // ---------------------------------------------------------------------------
  // Package metadata
  // ---------------------------------------------------------------------------

  const OriginBuilder: string := "builder"
  const OriginIntermediate: string := "intermediate"

  /** A package as the SBOM scanner reports it. */
  datatype SyftPackage = SyftPackage(purl: string, checksums: seq<string>, dependencyOfPurl: string)

  /** A scanned package tagged with where it came from. */
  datatype PackageMetadataItem = PackageMetadataItem(
    packageUrl: string, checksums: seq<string>, dependencyOfPurl: string,
    originType: string, pullspec: string, stageAlias: string)

  /** The package an item describes, without its origin. */
  function PackageOf(item: PackageMetadataItem): SyftPackage {
    SyftPackage(item.packageUrl, item.checksums, item.dependencyOfPurl)
  }

  /** Tags every package with the origin type and the package source's pinned pullspec and alias. */
  function TagAll(pkgs: seq<SyftPackage>, originType: string, src: PackageSource): (r: seq<PackageMetadataItem>)
    ensures |r| == |pkgs|
    ensures forall j :: 0 <= j < |r| ==> PackageOf(r[j]) == pkgs[j]
    ensures forall j :: 0 <= j < |r| ==>
      r[j].originType == originType && r[j].pullspec == src.digestPullspec && r[j].stageAlias == src.alias
    decreases |pkgs|
  {
    if pkgs == [] then []
    else
      [PackageMetadataItem(pkgs[0].purl, pkgs[0].checksums, pkgs[0].dependencyOfPurl, originType, src.digestPullspec, src.alias)]
        + TagAll(pkgs[1..], originType, src)
  }

  /**
   * The builder layer's packages tagged "builder", then the intermediate layer's
   * tagged "intermediate", all with the source's pinned pullspec and alias.
   */
  function GetPackageMetadata(src: PackageSource, builderPkgs: seq<SyftPackage>, intermediatePkgs: seq<SyftPackage>): (r: seq<PackageMetadataItem>)
    ensures |r| == |builderPkgs| + |intermediatePkgs|
    ensures forall j :: 0 <= j < |r| ==> r[j].pullspec == src.digestPullspec && r[j].stageAlias == src.alias
    ensures forall j :: 0 <= j < |r| ==>
      r[j].originType == (if j < |builderPkgs| then OriginBuilder else OriginIntermediate)
    ensures forall j :: 0 <= j < |builderPkgs| ==> PackageOf(r[j]) == builderPkgs[j]
    ensures forall j :: 0 <= j < |intermediatePkgs| ==> PackageOf(r[|builderPkgs| + j]) == intermediatePkgs[j]
  {
    TagAll(builderPkgs, OriginBuilder, src) + TagAll(intermediatePkgs, OriginIntermediate, src)
  }

  /** Dropping the tags gives back the scanned packages, builder ones first. */
  lemma MetadataUntags(src: PackageSource, builderPkgs: seq<SyftPackage>, intermediatePkgs: seq<SyftPackage>)
    ensures var r := GetPackageMetadata(src, builderPkgs, intermediatePkgs);
      seq(|r|, j requires 0 <= j < |r| => PackageOf(r[j])) == builderPkgs + intermediatePkgs
  {
  }
}
