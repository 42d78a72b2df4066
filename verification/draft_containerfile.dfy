/**
 * The draft COPY extractor of package capo (pkg/containerfile.go).
 *
 * It starts from the stages imagebuilder builds, each a name and its
 * instructions with the FROM instruction first. Every `--from=` flag of a COPY
 * yields one copy whose sources and destination are the raw arguments; no
 * WORKDIR is applied and no build argument is substituted. A Go panic (an index
 * or a slice out of range) is modelled as `None`.
 */
module DraftContainerfile {

  import opened Wrappers

  const FinalStage: string := ""

  const FromFlag: string := "--from="

  const CopyKeyword: string := "copy"

  /** A parsed instruction: its lower-case keyword, its flags and the values of its argument chain. */
  datatype Instruction = Instruction(value: string, flags: seq<string>, args: seq<string>)

  /** A stage as imagebuilder builds it: its name and its instructions, FROM first. */
  datatype RawStage = RawStage(name: string, children: seq<Instruction>)

  /** The error imagebuilder reports when it cannot build the stage list. */
  datatype BuildError = ErrStages(message: string)

  datatype Copy = Copy(sources: seq<string>, destination: string, from: string)

  datatype StageId = StageId(alias: string, pullspec: string)

  datatype CfileStage = CfileStage(id: StageId, copies: seq<Copy>)

  datatype Stage = Stage(alias: string, pullspec: string, sources: seq<string>)

  /** A Go map read: the zero value for a missing key. */
  function Lookup(m: map<string, string>, key: string): string {
    if key in m then m[key] else ""
  }

  // ---------------------------------------------------------------------------
  // Aliases and pullspecs
  // ---------------------------------------------------------------------------

  /** The first argument of the stage's first instruction; reading it panics when either is missing. */
  function FromArgument(s: RawStage): Option<string> {
    if |s.children| == 0 || |s.children[0].args| == 0 then None else Some(s.children[0].args[0])
  }

  /** No later stage among the first `n` has the name of stage `j`. */
  predicate LastWithName(stages: seq<RawStage>, n: nat, j: nat)
    requires j < n <= |stages|
  {
    forall m :: j < m < n ==> stages[m].name != stages[j].name
  }

  /** The FROM argument as the map stores it once no stage has panicked. */
  function FromText(s: RawStage): string {
    if |s.children| == 0 || |s.children[0].args| == 0 then "" else s.children[0].args[0]
  }

  /** Adding stage `n - 1` to the map of the first `n - 1` stages gives the map of the first `n`. */
  lemma AliasPullspecsStep(stages: seq<RawStage>, n: nat, prev: map<string, string>)
    requires 0 < n <= |stages|
    requires forall a :: a in prev <==> exists j :: 0 <= j < n - 1 && stages[j].name == a
    requires forall j :: 0 <= j < n - 1 && LastWithName(stages, n - 1, j) ==>
      stages[j].name in prev && prev[stages[j].name] == FromText(stages[j])
    ensures var r := prev[stages[n - 1].name := FromText(stages[n - 1])];
      && (forall a :: a in r <==> exists j :: 0 <= j < n && stages[j].name == a)
      && (forall j :: 0 <= j < n && LastWithName(stages, n, j) ==>
        stages[j].name in r && r[stages[j].name] == FromText(stages[j]))
  {
    var last := stages[n - 1].name;
    var r := prev[last := FromText(stages[n - 1])];
    forall a ensures a in r <==> exists j :: 0 <= j < n && stages[j].name == a {
      if a == last {
        assert stages[n - 1].name == a;
      }
    }
    forall j | 0 <= j < n && LastWithName(stages, n, j)
      ensures stages[j].name in r && r[stages[j].name] == FromText(stages[j])
    {
      if j < n - 1 {
        assert stages[j].name != last;
        assert LastWithName(stages, n - 1, j);
      }
    }
  }

  /** The names of the first `n` stages mapped to their raw FROM arguments; a later stage wins a shared name. */
  function AliasPullspecs(stages: seq<RawStage>, n: nat): (r: map<string, string>)
    requires n <= |stages|
    ensures forall a :: a in r <==> exists j :: 0 <= j < n && stages[j].name == a
    ensures forall j :: 0 <= j < n && LastWithName(stages, n, j) ==>
      stages[j].name in r && r[stages[j].name] == FromText(stages[j])
    decreases n
  {
    if n == 0 then map[]
    else
      var prev := AliasPullspecs(stages, n - 1);
      AliasPullspecsStep(stages, n, prev);
      prev[stages[n - 1].name := FromText(stages[n - 1])]
  }

  /**
   * mapAliasesToPullspecs: every stage but the final one, by name, to its raw
   * FROM argument. An empty stage list panics on the slice, and so does a
   * non-final stage without a FROM argument; the final stage's FROM is not read.
   */
  function MapAliasesToPullspecs(stages: seq<RawStage>): (r: Option<map<string, string>>)
    ensures r.Some? <==> |stages| > 0 && forall j :: 0 <= j < |stages| - 1 ==> FromArgument(stages[j]).Some?
    ensures r.Some? ==> forall a :: a in r.value <==> exists j :: 0 <= j < |stages| - 1 && stages[j].name == a
    ensures r.Some? ==> forall j :: 0 <= j < |stages| - 1 && LastWithName(stages, |stages| - 1, j) ==>
      r.value[stages[j].name] == FromArgument(stages[j]).value
  {
    if |stages| == 0 then None
    else if exists j :: 0 <= j < |stages| - 1 && FromArgument(stages[j]).None? then None
    else Some(AliasPullspecs(stages, |stages| - 1))
  }

  // ---------------------------------------------------------------------------
  // Copies
  // ---------------------------------------------------------------------------

  /** The number of `--from=` flags. */
  function FromFlagCount(flags: seq<string>): nat
    decreases |flags|
  {
    if flags == [] then 0 else (if FromFlag <= flags[0] then 1 else 0) + FromFlagCount(flags[1..])
  }

  /** The text after the prefix of every `--from=` flag, in flag order. */
  function FromValues(flags: seq<string>): (r: seq<string>)
    ensures |r| == FromFlagCount(flags)
    ensures forall v :: v in r <==> exists j :: 0 <= j < |flags| && flags[j] == FromFlag + v
    decreases |flags|
  {
    if flags == [] then []
    else
      var rest := FromValues(flags[1..]);
      assert forall j :: 1 <= j < |flags| ==> flags[j] == flags[1..][j - 1];
      if FromFlag <= flags[0] then
        var v := flags[0][|FromFlag|..];
        assert flags[0] == FromFlag + v;
        assert forall w :: flags[0] == FromFlag + w ==> w == v by {
          forall w | flags[0] == FromFlag + w ensures w == v {
            assert (FromFlag + w)[|FromFlag|..] == w;
          }
        }
        [v] + rest
      else
        assert forall w :: flags[0] != FromFlag + w by {
          forall w ensures flags[0] != FromFlag + w {
            assert (FromFlag + w)[..|FromFlag|] == FromFlag;
          }
        }
        rest
  }

  /** The `--from=` flag at position `j` gives the value at the position counted by the `--from=` flags before it. */
  lemma {:induction false} FromValuesOrder(flags: seq<string>, j: nat)
    requires j < |flags| && FromFlag <= flags[j]
    ensures FromFlagCount(flags[..j]) < |FromValues(flags)|
    ensures FromValues(flags)[FromFlagCount(flags[..j])] == flags[j][|FromFlag|..]
    decreases j
  {
    if j > 0 {
      assert flags[..j][1..] == flags[1..][..j - 1];
      assert flags[1..][j - 1] == flags[j];
      FromValuesOrder(flags[1..], j - 1);
    }
  }

  /** A COPY with a `--from=` flag and no arguments: splitting them off panics. */
  predicate Panics(i: Instruction) {
    i.value == CopyKeyword && FromFlagCount(i.flags) > 0 && |i.args| == 0
  }

  /** The instruction yields `c`: a COPY whose arguments are `c`'s sources then destination, with a flag naming `c.from`. */
  predicate Yields(i: Instruction, c: Copy) {
    && i.value == CopyKeyword
    && |i.args| > 0
    && c.sources == i.args[..|i.args| - 1]
    && c.destination == i.args[|i.args| - 1]
    && c.from in FromValues(i.flags)
  }

  /** The number of copies the instructions yield: one per `--from=` flag of every COPY. */
  function CopyCount(children: seq<Instruction>): nat
    decreases |children|
  {
    if children == [] then 0
    else (if children[0].value == CopyKeyword then FromFlagCount(children[0].flags) else 0) + CopyCount(children[1..])
  }

  /** The copies of one instruction. */
  function InstructionCopies(i: Instruction): (r: Option<seq<Copy>>)
    ensures r.None? <==> Panics(i)
    ensures r.Some? ==> |r.value| == (if i.value == CopyKeyword then FromFlagCount(i.flags) else 0)
    ensures r.Some? ==> forall c :: c in r.value <==> Yields(i, c)
    ensures r.Some? ==> forall k :: 0 <= k < |r.value| ==> r.value[k].from == FromValues(i.flags)[k]
  {
    if i.value != CopyKeyword then Some([])
    else
      var froms := FromValues(i.flags);
      if froms == [] then Some([])
      else if |i.args| == 0 then None
      else
        var n := |i.args|;
        var r := seq(|froms|, k requires 0 <= k < |froms| => Copy(i.args[..n - 1], i.args[n - 1], froms[k]));
        assert forall c :: Yields(i, c) ==> c in r by {
          forall c | Yields(i, c) ensures c in r {
            var k :| 0 <= k < |froms| && froms[k] == c.from;
            assert r[k] == c;
          }
        }
        Some(r)
  }

  /** The copies of every instruction, in instruction order; None as soon as one of them panics. */
  function CopiesIn(children: seq<Instruction>): Option<seq<Copy>>
    decreases |children|
  {
    if children == [] then Some([])
    else
      var head :- InstructionCopies(children[0]);
      var rest :- CopiesIn(children[1..]);
      Some(head + rest)
  }

  lemma {:induction false} CopiesInFacts(children: seq<Instruction>)
    ensures CopiesIn(children).None? <==> exists k :: 0 <= k < |children| && Panics(children[k])
    ensures CopiesIn(children).Some? ==> |CopiesIn(children).value| == CopyCount(children)
    ensures CopiesIn(children).Some? ==>
      forall c :: c in CopiesIn(children).value <==> exists k :: 0 <= k < |children| && Yields(children[k], c)
    decreases |children|
  {
    if children != [] {
      assert forall k :: 1 <= k < |children| ==> children[k] == children[1..][k - 1];
      CopiesInFacts(children[1..]);
    }
  }

  /**
   * getBuilderCopiesInStage over a list of instructions: the copies of every
   * instruction, in instruction order; any COPY with a `--from=` flag and no
   * arguments panics.
   */
  function StageCopies(children: seq<Instruction>): (r: Option<seq<Copy>>)
    ensures r.None? <==> exists k :: 0 <= k < |children| && Panics(children[k])
    ensures r.Some? ==> |r.value| == CopyCount(children)
    ensures r.Some? ==> forall c :: c in r.value <==> exists k :: 0 <= k < |children| && Yields(children[k], c)
  {
    CopiesInFacts(children);
    CopiesIn(children)
  }

  function GetBuilderCopiesInStage(s: RawStage): (r: Option<seq<Copy>>)
    ensures r.None? <==> exists k :: 0 <= k < |s.children| && Panics(s.children[k])
    ensures r.Some? ==> |r.value| == CopyCount(s.children)
    ensures r.Some? ==> forall c :: c in r.value <==> exists k :: 0 <= k < |s.children| && Yields(s.children[k], c)
  {
    StageCopies(s.children)
  }

  lemma {:induction false} CopiesInAppend(a: seq<Instruction>, b: seq<Instruction>)
    requires CopiesIn(a).Some? && CopiesIn(b).Some?
    ensures CopiesIn(a + b) == Some(CopiesIn(a).value + CopiesIn(b).value)
    decreases |a|
  {
    if a == [] {
      assert a + b == b;
      assert [] + CopiesIn(b).value == CopiesIn(b).value;
    } else {
      var ab := a + b;
      assert ab[0] == a[0];
      assert ab[1..] == a[1..] + b;
      var head := InstructionCopies(a[0]).value;
      var t := CopiesIn(a[1..]).value;
      var u := CopiesIn(b).value;
      CopiesInAppend(a[1..], b);
      assert CopiesIn(ab) == Some(head + (t + u));
      assert head + (t + u) == (head + t) + u;
    }
  }

  /** The copies of consecutive instruction lists follow one another. */
  lemma StageCopiesAppend(a: seq<Instruction>, b: seq<Instruction>)
    requires StageCopies(a).Some? && StageCopies(b).Some?
    ensures StageCopies(a + b) == Some(StageCopies(a).value + StageCopies(b).value)
  {
    CopiesInAppend(a, b);
  }

  lemma SplitAt<T>(s: seq<T>, k: nat)
    requires k < |s|
    ensures s == (s[..k] + [s[k]]) + s[k + 1..]
  {
  }

  /** A part of an instruction list that panics makes the whole list panic. */
  lemma PartPanics(children: seq<Instruction>, part: seq<Instruction>, offset: nat)
    requires offset + |part| <= |children|
    requires forall m :: 0 <= m < |part| ==> part[m] == children[offset + m]
    requires StageCopies(children).Some?
    ensures StageCopies(part).Some?
  {
    forall m | 0 <= m < |part| ensures !Panics(part[m]) {
      assert part[m] == children[offset + m];
    }
  }

  /** An instruction other than COPY can be removed without changing the copies. */
  lemma OtherInstructionIgnored(children: seq<Instruction>, k: nat)
    requires k < |children| && children[k].value != CopyKeyword
    requires StageCopies(children).Some?
    ensures StageCopies(children[..k] + children[k + 1..]) == StageCopies(children)
  {
    var a, b := children[..k], children[k + 1..];
    var other := [children[k]];
    SplitAt(children, k);
    PartPanics(children, a, 0);
    PartPanics(children, b, k + 1);
    assert CopiesIn(other) == Some([]) by {
      assert other[0] == children[k] && other[1..] == [];
      assert InstructionCopies(other[0]) == Some([]);
      assert CopiesIn(other[1..]) == Some([]);
      var none: seq<Copy> := [];
      assert none + none == none;
    }
    StageCopiesAppend(a, other);
    assert StageCopies(a + other) == StageCopies(a) by {
      assert StageCopies(a).value + [] == StageCopies(a).value;
    }
    StageCopiesAppend(a + other, b);
    StageCopiesAppend(a, b);
  }

  // ---------------------------------------------------------------------------
  // Stages
  // ---------------------------------------------------------------------------

  /** The copies of every stage, or a panic when some stage panics. */
  function AllCopies(stages: seq<RawStage>): (r: Option<seq<seq<Copy>>>)
    ensures r.Some? <==> forall i :: 0 <= i < |stages| ==> GetBuilderCopiesInStage(stages[i]).Some?
    ensures r.Some? ==> |r.value| == |stages|
    ensures r.Some? ==> forall i :: 0 <= i < |stages| ==> r.value[i] == GetBuilderCopiesInStage(stages[i]).value
    decreases |stages|
  {
    if stages == [] then Some([])
    else
      assert forall i :: 1 <= i < |stages| ==> stages[i] == stages[1..][i - 1];
      var head :- GetBuilderCopiesInStage(stages[0]);
      var rest :- AllCopies(stages[1..]);
      Some([head] + rest)
  }

  /** Every stage's alias: its name, except FinalStage for the last one. */
  function AliasOf(stages: seq<RawStage>, i: nat): string
    requires i < |stages|
  {
    if i == |stages| - 1 then FinalStage else stages[i].name
  }

  /**
   * parseContainerfileStages: one stage per built stage, in order, with the
   * last one relabelled FinalStage, the pullspec looked up by the stage's own
   * name, and the builder copies. A build error is passed on; a panic of the
   * alias map or of a stage's copies is `None`.
   */
  function ParseContainerfileStages(built: Result<seq<RawStage>, BuildError>): (r: Option<Result<seq<CfileStage>, BuildError>>)
    ensures built.Failure? ==> r == Some(Failure(built.error))
    ensures built.Success? ==> (r.None? <==>
      || MapAliasesToPullspecs(built.value).None?
      || exists i :: 0 <= i < |built.value| && GetBuilderCopiesInStage(built.value[i]).None?)
    ensures r.Some? && r.value.Success? ==>
      && built.Success?
      && |r.value.value| == |built.value| > 0
      && forall i :: 0 <= i < |built.value| ==>
        && r.value.value[i].id.alias == AliasOf(built.value, i)
        && r.value.value[i].id.pullspec == Lookup(MapAliasesToPullspecs(built.value).value, built.value[i].name)
        && r.value.value[i].copies == GetBuilderCopiesInStage(built.value[i]).value
  {
    if built.Failure? then Some(Failure(built.error))
    else
      var stages := built.value;
      var pullspecs :- MapAliasesToPullspecs(stages);
      var copies :- AllCopies(stages);
      Some(Success(seq(|stages|, i requires 0 <= i < |stages| =>
        CfileStage(StageId(AliasOf(stages, i), Lookup(pullspecs, stages[i].name)), copies[i]))))
  }

  /**
   * A non-final stage that is the last of its name gets its own raw FROM
   * argument; the final stage gets no pullspec unless an earlier stage shares
   * its name, in which case it gets that stage's.
   */
  lemma ParsedPullspecs(built: Result<seq<RawStage>, BuildError>, i: nat)
    requires var r := ParseContainerfileStages(built); r.Some? && r.value.Success?
    requires built.Success? && i < |built.value|
    ensures var stages := built.value;
      var out := ParseContainerfileStages(built).value.value;
      && (i < |stages| - 1 && LastWithName(stages, |stages| - 1, i) ==>
            out[i].id.pullspec == FromArgument(stages[i]).value)
      && (i == |stages| - 1 && (forall j :: 0 <= j < i ==> stages[j].name != stages[i].name) ==>
            out[i].id.pullspec == "")
  {
  }

  /**
   * ParseContainerfile: the draft never fills in its result, so whatever the
   * stages, it returns no stage and no error; a build error is dropped too.
   * Only the panics of parseContainerfileStages get through.
   */
  function ParseContainerfile(built: Result<seq<RawStage>, BuildError>): (r: Option<seq<Stage>>)
    ensures r.None? <==> ParseContainerfileStages(built).None?
    ensures built.Failure? ==> r == Some([])
  {
    match ParseContainerfileStages(built)
    case None => None
    case Some(Failure(_)) => Some([])
    case Some(Success(cfileStages)) =>
      Some([])
  }

  /** Whatever the input, a draft parse that does not panic yields no stages. */
  lemma ParseContainerfileDiscards(built: Result<seq<RawStage>, BuildError>)
    requires ParseContainerfileStages(built).Some?
    ensures ParseContainerfile(built) == Some([])
  {
  }

  // ---------------------------------------------------------------------------
  // A worked example
  // ---------------------------------------------------------------------------

  /** The COPY of the worked example: two `--from=` flags around another flag. */
  const ExampleCopy := Instruction("copy", ["--from=b", "--chown=0", "--from=c"], ["/a", "/b", "dest"])

  const ExampleBuilder := RawStage("b", [Instruction("from", [], ["golang:${V}"])])

  const ExampleFinal := RawStage("1", [Instruction("from", [], ["scratch"]), Instruction("run", [], ["true"]), ExampleCopy])

  lemma ExampleFlags()
    ensures FromValues(ExampleCopy.flags) == ["b", "c"]
  {
    var flags := ExampleCopy.flags;
    assert FromFlag <= flags[0] && FromFlag <= flags[2];
    assert !(FromFlag <= flags[1]) by {
      assert flags[1][2] != FromFlag[2];
    }
    assert flags[2..][1..] == [];
    assert FromValues(flags[2..]) == ["c"];
    assert flags[1..][1..] == flags[2..];
    assert FromValues(flags[1..]) == ["c"];
  }

  lemma ExampleFinalCopies()
    ensures GetBuilderCopiesInStage(ExampleFinal) == Some([Copy(["/a", "/b"], "dest", "b"), Copy(["/a", "/b"], "dest", "c")])
  {
    ExampleFlags();
    var copy := ExampleCopy;
    assert copy.args[..2] == ["/a", "/b"];
    var copies := InstructionCopies(copy).value;
    assert |copies| == 2 && copies[0] == Copy(["/a", "/b"], "dest", "b") && copies[1] == Copy(["/a", "/b"], "dest", "c");
    var children := ExampleFinal.children;
    assert children[2..][1..] == [];
    assert CopiesIn(children[2..]) == Some(copies + []);
    assert copies + [] == copies && [] + copies == copies;
    assert children[1..][1..] == children[2..];
    assert CopiesIn(children[1..]) == Some(copies);
    assert CopiesIn(children) == Some([] + copies);
    assert copies == [Copy(["/a", "/b"], "dest", "b"), Copy(["/a", "/b"], "dest", "c")];
  }

  /**
   * Two stages, a builder `b` and an unnamed final stage that copies from it
   * with two `--from=` flags: the builder keeps its raw FROM argument, the final
   * stage is relabelled and gets no pullspec, and each flag yields its own copy.
   */
  lemma TwoFlagsTwoCopies()
    ensures ParseContainerfileStages(Success([ExampleBuilder, ExampleFinal])) == Some(Success([
        CfileStage(StageId("b", "golang:${V}"), []),
        CfileStage(StageId(FinalStage, ""), [Copy(["/a", "/b"], "dest", "b"), Copy(["/a", "/b"], "dest", "c")])
      ]))
  {
    var stages := [ExampleBuilder, ExampleFinal];
    ExampleFinalCopies();
    var copies := GetBuilderCopiesInStage(ExampleFinal).value;
    assert GetBuilderCopiesInStage(ExampleBuilder) == Some([]);
    var m := map["b" := "golang:${V}"];
    assert MapAliasesToPullspecs(stages) == Some(m);
    assert Lookup(m, "b") == "golang:${V}" && Lookup(m, "1") == "";
    assert stages[1..][1..] == [];
    assert AllCopies(stages[1..][1..]) == Some([]);
    assert AllCopies(stages[1..]) == Some([copies] + []);
    assert [copies] + [] == [copies];
    assert AllCopies(stages) == Some([[]] + [copies]);
    assert [[]] + [copies] == [[], copies];
    var out := ParseContainerfileStages(Success(stages)).value.value;
    assert |out| == 2;
    assert out[0] == CfileStage(StageId("b", "golang:${V}"), []);
    assert out[1] == CfileStage(StageId(FinalStage, ""), copies);
    assert out == [out[0], out[1]];
  }
}
