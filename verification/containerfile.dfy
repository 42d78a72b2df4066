/**
 * Parsing a Containerfile into stages (pkg/containerfile/containerfile.go).
 *
 * The Containerfile grammar itself, build-argument evaluation and target selection
 * happen in the imagebuilder library; the model starts from its output: a list of raw
 * stages, each with a name (imagebuilder gives unnamed stages their index as name),
 * the argument of its FROM instruction and its instructions. Variable expansion
 * (ProcessWord with the stage's build arguments) is a parameter: `expand(i, w)` is the
 * word `w` evaluated in the environment of stage `i`.
 *
 * What the parser extracts are the builder-type copies: COPY instructions with a
 * `--from=` flag, which copy from an earlier stage (type Builder) or straight from an
 * image (type External). Their destinations are made absolute using the WORKDIR
 * instructions seen so far in the stage.
 */
module Containerfile {

  import opened Wrappers
  import Paths

  /** The alias every parsed final stage carries. */
  const FinalStage: string := ""

  const FromFlag: string := "--from="

  datatype CopyType = CopyTypeBuilder | CopyTypeExternal

  /** A builder-type COPY: `from` is a stage alias for Builder copies and a pullspec for External ones. */
  datatype Copy = Copy(sources: seq<string>, destination: string, from: string, kind: CopyType)

  /** A parsed stage: its alias (FinalStage for the last one), base image pullspec and builder copies. */
  datatype Stage = Stage(alias: string, pullspec: string, copies: seq<Copy>)

  datatype ParseError =
    | ErrTargetNotFound(target: string)
    | ErrAmbiguousRelativePath(original: string)

  /** An instruction as the Containerfile parser hands it over. */
  datatype Instruction =
    | Workdir(path: string, original: string)
    | CopyInstruction(flags: seq<string>, args: seq<string>, original: string)
    | OtherInstruction(keyword: string)

  /** A stage as imagebuilder produces it: name, FROM argument, instructions. */
  datatype RawStage = RawStage(name: string, base: string, instructions: seq<Instruction>)

  /** Word expansion in the build-argument environment of a stage, by stage index. */
  type Expander = (nat, string) -> string

  /** A Go map read: the zero value for a missing key. */
  function Lookup(m: map<string, string>, key: string): string {
    if key in m then m[key] else ""
  }

  // ---------------------------------------------------------------------------
  // Single instructions
  // ---------------------------------------------------------------------------

  predicate HasFromFlag(flag: string) {
    FromFlag <= flag
  }

  /** The position of the first `--from=` flag, or the number of flags when there is none. */
  function FirstFromFlag(flags: seq<string>): (k: nat)
    ensures k <= |flags|
    ensures k < |flags| ==> HasFromFlag(flags[k])
    ensures forall j :: 0 <= j < k ==> !HasFromFlag(flags[j])
    decreases |flags|
  {
    if flags == [] || HasFromFlag(flags[0]) then 0
    else 1 + FirstFromFlag(flags[1..])
  }

  /** The value of the first `--from=` flag, if any. */
  function FromFlagValue(flags: seq<string>): (r: Option<string>)
    ensures r.None? <==> forall k :: 0 <= k < |flags| ==> !HasFromFlag(flags[k])
    ensures r.Some? ==> exists k ::
      && 0 <= k < |flags|
      && flags[k] == FromFlag + r.value
      && (forall j :: 0 <= j < k ==> !HasFromFlag(flags[j]))
  {
    var k := FirstFromFlag(flags);
    if k == |flags| then None
    else
      assert flags[k] == FromFlag + flags[k][|FromFlag|..];
      Some(flags[k][|FromFlag|..])
  }

  /** A COPY with a `--from=` flag whose argument list cannot be split into sources and a destination. */
  predicate CopyWellFormed(i: Instruction) {
    i.CopyInstruction? && FromFlagValue(i.flags).Some? ==> |i.args| >= 1
  }

  predicate InstructionsWellFormed(instrs: seq<Instruction>) {
    forall k :: 0 <= k < |instrs| ==> CopyWellFormed(instrs[k])
  }

  /** The WORKDIR of a stage: unset (empty) or absolute. */
  predicate WorkdirValid(workdir: string) {
    workdir == "" || Paths.IsAbs(workdir)
  }

  /** The effect of a WORKDIR instruction; a relative one needs an earlier absolute one. */
  function NextWorkdir(workdir: string, path: string, original: string): (r: Result<string, ParseError>)
    requires WorkdirValid(workdir)
    ensures r.Failure? <==> !Paths.IsAbs(path) && workdir == ""
    ensures r.Failure? ==> r.error == ErrAmbiguousRelativePath(original)
    ensures r.Success? ==> Paths.IsAbs(r.value)
    ensures Paths.IsAbs(path) ==> r == Success(path)
    ensures r.Success? && !Paths.IsAbs(path) ==> Paths.Clean(r.value) == Paths.Clean(workdir + "/" + path)
  {
    if Paths.IsAbs(path) then Success(path)
    else if workdir == "" then Failure(ErrAmbiguousRelativePath(original))
    else
      Paths.JoinAbs(workdir, path);
      Paths.CleanIdempotent(workdir + "/" + path);
      Success(Paths.Join(workdir, path))
  }

  /**
   * The absolute destination of a builder copy. An absolute destination is kept; a
   * relative one is joined to the WORKDIR, and one whose last element names a
   * directory ("", "." or "..") gets a trailing separator unless it is the root.
   */
  function ResolveDestination(dest: string, workdir: string, original: string): (r: Result<string, ParseError>)
    requires WorkdirValid(workdir)
    ensures r.Failure? <==> !Paths.IsAbs(dest) && workdir == ""
    ensures r.Failure? ==> r.error == ErrAmbiguousRelativePath(original)
    ensures Paths.IsAbs(dest) ==> r == Success(dest)
    ensures r.Success? ==> Paths.IsAbs(r.value)
    ensures r.Success? && !Paths.IsAbs(dest) ==>
      && Paths.Clean(r.value) == Paths.Clean(workdir + "/" + dest)
      && (r.value[|r.value| - 1] == Paths.Separator <==> Paths.IsDirectoryElement(Paths.LastElement(dest)))
    ensures r.Success? && !Paths.IsAbs(dest) && !Paths.IsDirectoryElement(Paths.LastElement(dest)) ==>
      && r.value == Paths.Clean(workdir + "/" + dest)
      && Paths.LastElement(r.value) == Paths.LastElement(dest)
    ensures r.Success? && !Paths.IsAbs(dest) && Paths.IsDirectoryElement(Paths.LastElement(dest)) ==>
      r.value == (if Paths.Clean(workdir + "/" + dest) == "/" then "/" else Paths.Clean(workdir + "/" + dest) + "/")
  {
    if Paths.IsAbs(dest) then Success(dest)
    else if workdir == "" then Failure(ErrAmbiguousRelativePath(original))
    else
      var joined := Paths.Join(workdir, dest);
      var p := workdir + "/" + dest;
      Paths.JoinAbs(workdir, dest);
      Paths.CleanIdempotent(p);
      Paths.ElementsAppend(workdir, dest);
      assert Paths.LastElement(p) == Paths.LastElement(dest);
      if Paths.IsDirectoryElement(Paths.LastElement(dest)) then
        if joined != "/" then
          Paths.CleanTrailingSeparator(joined);
          Success(joined + "/")
        else
          Success(joined)
      else
        Paths.CleanKeepsLastName(p);
        Success(joined)
  }

  /**
   * A COPY instruction as a builder copy: None without a `--from=` flag, otherwise the
   * copy from the expanded flag value, of type Builder exactly when that value is
   * one of the stage names seen so far.
   */
  function ParseCopy(flags: seq<string>, args: seq<string>, original: string, workdir: string,
                     names: seq<string>, stage: nat, expand: Expander): (r: Result<Option<Copy>, ParseError>)
    requires WorkdirValid(workdir)
    requires FromFlagValue(flags).Some? ==> |args| >= 1
    ensures FromFlagValue(flags).None? ==> r == Success(None)
    ensures FromFlagValue(flags).Some? ==>
      && (r.Failure? <==> !Paths.IsAbs(args[|args| - 1]) && workdir == "")
      && (r.Success? ==> r.value.Some?)
    ensures r.Failure? ==> r.error == ErrAmbiguousRelativePath(original)
    ensures r.Success? && r.value.Some? ==>
      var c := r.value.value;
      && c.from == expand(stage, FromFlagValue(flags).value)
      && c.sources == args[..|args| - 1]
      && Paths.IsAbs(c.destination)
      && (Paths.IsAbs(args[|args| - 1]) ==> c.destination == args[|args| - 1])
      && (!Paths.IsAbs(args[|args| - 1]) ==>
            && Paths.Clean(c.destination) == Paths.Clean(workdir + "/" + args[|args| - 1])
            && (c.destination[|c.destination| - 1] == Paths.Separator <==>
                Paths.IsDirectoryElement(Paths.LastElement(args[|args| - 1]))))
      && (c.kind == CopyTypeBuilder <==> c.from in names)
  {
    match FromFlagValue(flags)
    case None => Success(None)
    case Some(raw) =>
      var from := expand(stage, raw);
      var destination :- ResolveDestination(args[|args| - 1], workdir, original);
      var kind := if from in names then CopyTypeBuilder else CopyTypeExternal;
      Success(Some(Copy(args[..|args| - 1], destination, from, kind)))
  }

  // ---------------------------------------------------------------------------
  // Stages
  // ---------------------------------------------------------------------------

  /** The number of COPY instructions that carry a `--from=` flag. */
  function FromCopyCount(instrs: seq<Instruction>): nat
    decreases |instrs|
  {
    if instrs == [] then 0
    else
      var own := if instrs[0].CopyInstruction? && FromFlagValue(instrs[0].flags).Some? then 1 else 0;
      own + FromCopyCount(instrs[1..])
  }

  /** Every builder copy is well typed with respect to the stage names visible to it. */
  predicate CopiesTyped(copies: seq<Copy>, names: seq<string>) {
    forall c :: c in copies ==> Paths.IsAbs(c.destination) && (c.kind == CopyTypeBuilder <==> c.from in names)
  }

  /** The builder copies of the remaining instructions, with the WORKDIR in effect before them. */
  function CopiesFrom(instrs: seq<Instruction>, workdir: string, names: seq<string>,
                      stage: nat, expand: Expander): (r: Result<seq<Copy>, ParseError>)
    requires WorkdirValid(workdir)
    requires InstructionsWellFormed(instrs)
    ensures r.Success? ==> CopiesTyped(r.value, names)
    ensures r.Success? ==> |r.value| == FromCopyCount(instrs)
    ensures r.Failure? ==> r.error.ErrAmbiguousRelativePath?
    decreases |instrs|
  {
    if instrs == [] then Success([])
    else
      assert CopyWellFormed(instrs[0]);
      match instrs[0]
      case Workdir(path, original) =>
        var next :- NextWorkdir(workdir, path, original);
        CopiesFrom(instrs[1..], next, names, stage, expand)
      case CopyInstruction(flags, args, original) =>
        var cp :- ParseCopy(flags, args, original, workdir, names, stage, expand);
        var rest :- CopiesFrom(instrs[1..], workdir, names, stage, expand);
        Success((if cp.Some? then [cp.value] else []) + rest)
      case OtherInstruction(_) =>
        CopiesFrom(instrs[1..], workdir, names, stage, expand)
  }

  /** InstructionsWellFormed holds of a concatenation exactly when it holds of both parts. */
  lemma WellFormedAppend(a: seq<Instruction>, b: seq<Instruction>)
    ensures InstructionsWellFormed(a + b) <==> InstructionsWellFormed(a) && InstructionsWellFormed(b)
  {
    if InstructionsWellFormed(a + b) {
      forall k | 0 <= k < |a| ensures CopyWellFormed(a[k]) {
        assert (a + b)[k] == a[k];
      }
      forall k | 0 <= k < |b| ensures CopyWellFormed(b[k]) {
        assert (a + b)[|a| + k] == b[k];
      }
    }
  }

  /**
   * The WORKDIR in effect after the instructions, starting from `workdir`: each
   * WORKDIR instruction moves it as NextWorkdir does, every other instruction keeps it.
   */
  function WorkdirAfter(instrs: seq<Instruction>, workdir: string): (r: Result<string, ParseError>)
    requires WorkdirValid(workdir)
    ensures r.Success? ==> WorkdirValid(r.value)
    ensures r.Success? && r.value == "" ==> workdir == ""
    ensures (forall k :: 0 <= k < |instrs| ==> !instrs[k].Workdir?) ==> r == Success(workdir)
    decreases |instrs|
  {
    if instrs == [] then Success(workdir)
    else
      var next :- if instrs[0].Workdir? then NextWorkdir(workdir, instrs[0].path, instrs[0].original) else Success(workdir);
      assert forall k :: 0 <= k < |instrs[1..]| ==> instrs[1..][k] == instrs[k + 1];
      WorkdirAfter(instrs[1..], next)
  }

  /** The copy list of `a + b`: the copies of `a`, then those of `b` under the WORKDIR `a` leaves. */
  ghost predicate CopiesSplit(a: seq<Instruction>, b: seq<Instruction>, workdir: string, names: seq<string>,
                              stage: nat, expand: Expander)
    requires WorkdirValid(workdir)
    requires InstructionsWellFormed(a) && InstructionsWellFormed(b) && InstructionsWellFormed(a + b)
  {
    var ra := CopiesFrom(a, workdir, names, stage, expand);
    && (ra.Failure? ==> CopiesFrom(a + b, workdir, names, stage, expand) == Failure(ra.error))
    && (ra.Success? ==>
          && WorkdirAfter(a, workdir).Success?
          && var rb := CopiesFrom(b, WorkdirAfter(a, workdir).value, names, stage, expand);
             CopiesFrom(a + b, workdir, names, stage, expand) == (if rb.Success? then Success(ra.value + rb.value) else rb))
  }

  lemma TailWellFormed(a: seq<Instruction>, b: seq<Instruction>)
    requires |a| > 0
    requires InstructionsWellFormed(a) && InstructionsWellFormed(b)
    ensures (a + b)[0] == a[0] && (a + b)[1..] == a[1..] + b
    ensures InstructionsWellFormed(a[1..]) && InstructionsWellFormed(a[1..] + b)
  {
    assert (a + b)[1..] == a[1..] + b;
    assert forall k :: 0 <= k < |a[1..]| ==> a[1..][k] == a[k + 1];
    WellFormedAppend(a[1..], b);
  }

  /**
   * The split of `a + b` with `a` non-empty, from the split of its tail: the first
   * instruction either fails both lists alike or contributes the same prefix to both.
   */
  lemma CopiesSplitStep(a: seq<Instruction>, b: seq<Instruction>, workdir: string, names: seq<string>,
                        stage: nat, expand: Expander)
    requires |a| > 0 && WorkdirValid(workdir)
    requires InstructionsWellFormed(a) && InstructionsWellFormed(b)
    requires InstructionsWellFormed(a[1..]) && InstructionsWellFormed(a + b) && InstructionsWellFormed(a[1..] + b)
    requires (a + b)[0] == a[0] && (a + b)[1..] == a[1..] + b
    requires forall w :: WorkdirValid(w) ==> CopiesSplit(a[1..], b, w, names, stage, expand)
    ensures CopiesSplit(a, b, workdir, names, stage, expand)
  {
    assert CopyWellFormed(a[0]);
    assert CopiesSplit(a[1..], b, workdir, names, stage, expand);
    match a[0]
    case Workdir(path, original) =>
      var next := NextWorkdir(workdir, path, original);
      if next.Success? {
        assert CopiesSplit(a[1..], b, next.value, names, stage, expand);
      }
    case CopyInstruction(flags, args, original) =>
      var cp := ParseCopy(flags, args, original, workdir, names, stage, expand);
      if cp.Success? && CopiesFrom(a[1..], workdir, names, stage, expand).Success? {
        var own := if cp.value.Some? then [cp.value.value] else [];
        var ra' := CopiesFrom(a[1..], workdir, names, stage, expand).value;
        var rb := CopiesFrom(b, WorkdirAfter(a[1..], workdir).value, names, stage, expand);
        if rb.Success? {
          Paths.AppendAssoc(own, ra', rb.value);
        }
      }
    case OtherInstruction(_) =>
  }

  /** The copies of a concatenation are those of its two parts, the second parsed under the WORKDIR the first leaves. */
  lemma {:induction false} CopiesFromAppend(a: seq<Instruction>, b: seq<Instruction>, workdir: string,
                                            names: seq<string>, stage: nat, expand: Expander)
    requires WorkdirValid(workdir)
    requires InstructionsWellFormed(a) && InstructionsWellFormed(b)
    ensures InstructionsWellFormed(a + b)
    ensures CopiesSplit(a, b, workdir, names, stage, expand)
    decreases |a|
  {
    WellFormedAppend(a, b);
    if a == [] {
      assert a + b == b;
      var rb := CopiesFrom(b, workdir, names, stage, expand);
      if rb.Success? {
        assert [] + rb.value == rb.value;
      }
    } else {
      TailWellFormed(a, b);
      forall w | WorkdirValid(w) ensures CopiesSplit(a[1..], b, w, names, stage, expand) {
        CopiesFromAppend(a[1..], b, w, names, stage, expand);
      }
      CopiesSplitStep(a, b, workdir, names, stage, expand);
    }
  }

  /**
   * Every COPY with a `--from=` flag yields its copy at the position counted by the
   * `--from=` copies before it, resolved against the WORKDIR the instructions before
   * it leave.
   */
  lemma CopyAt(instrs: seq<Instruction>, k: nat, workdir: string, names: seq<string>, stage: nat, expand: Expander)
    requires WorkdirValid(workdir) && InstructionsWellFormed(instrs)
    requires k < |instrs| && instrs[k].CopyInstruction? && FromFlagValue(instrs[k].flags).Some?
    requires CopiesFrom(instrs, workdir, names, stage, expand).Success?
    ensures WorkdirAfter(instrs[..k], workdir).Success?
    ensures FromCopyCount(instrs[..k]) < |CopiesFrom(instrs, workdir, names, stage, expand).value|
    ensures CopyWellFormed(instrs[k])
    ensures ParseCopy(instrs[k].flags, instrs[k].args, instrs[k].original, WorkdirAfter(instrs[..k], workdir).value,
                      names, stage, expand)
      == Success(Some(CopiesFrom(instrs, workdir, names, stage, expand).value[FromCopyCount(instrs[..k])]))
  {
    assert CopyWellFormed(instrs[k]);
    var a := instrs[..k];
    var b := instrs[k..];
    assert a + b == instrs;
    WellFormedAppend(a, b);
    CopiesFromAppend(a, b, workdir, names, stage, expand);
    var ra := CopiesFrom(a, workdir, names, stage, expand).value;
    var w := WorkdirAfter(a, workdir).value;
    var rb := CopiesFrom(b, w, names, stage, expand);
    assert b[0] == instrs[k];
    FirstCopy(b, w, names, stage, expand);
    assert (ra + rb.value)[|ra|] == rb.value[0];
  }

  /** A list that starts with a COPY carrying `--from=` starts its copies with that COPY's copy. */
  lemma FirstCopy(b: seq<Instruction>, workdir: string, names: seq<string>, stage: nat, expand: Expander)
    requires WorkdirValid(workdir) && InstructionsWellFormed(b)
    requires |b| > 0 && b[0].CopyInstruction? && FromFlagValue(b[0].flags).Some?
    requires CopiesFrom(b, workdir, names, stage, expand).Success?
    ensures CopyWellFormed(b[0])
    ensures |CopiesFrom(b, workdir, names, stage, expand).value| > 0
    ensures ParseCopy(b[0].flags, b[0].args, b[0].original, workdir, names, stage, expand)
      == Success(Some(CopiesFrom(b, workdir, names, stage, expand).value[0]))
  {
    assert CopyWellFormed(b[0]);
  }

  /** The builder copies of one stage; every stage starts without a WORKDIR. */
  function GetBuilderCopiesInStage(s: RawStage, names: seq<string>, stage: nat, expand: Expander): (r: Result<seq<Copy>, ParseError>)
    requires InstructionsWellFormed(s.instructions)
    ensures r.Success? ==> CopiesTyped(r.value, names)
    ensures r.Success? ==> |r.value| == FromCopyCount(s.instructions)
    ensures r.Failure? ==> r.error.ErrAmbiguousRelativePath?
  {
    CopiesFrom(s.instructions, "", names, stage, expand)
  }

  /**
   * The stage's copies in instruction order: the `k`-th instruction, a COPY with a
   * `--from=` flag, yields the copy after those of the `--from=` copies before it,
   * resolved against the WORKDIR the stage's earlier instructions set up from none.
   */
  lemma StageCopyAt(s: RawStage, k: nat, names: seq<string>, stage: nat, expand: Expander)
    requires InstructionsWellFormed(s.instructions)
    requires k < |s.instructions| && s.instructions[k].CopyInstruction? && FromFlagValue(s.instructions[k].flags).Some?
    requires GetBuilderCopiesInStage(s, names, stage, expand).Success?
    ensures WorkdirAfter(s.instructions[..k], "").Success?
    ensures FromCopyCount(s.instructions[..k]) < |GetBuilderCopiesInStage(s, names, stage, expand).value|
    ensures CopyWellFormed(s.instructions[k])
    ensures ParseCopy(s.instructions[k].flags, s.instructions[k].args, s.instructions[k].original,
                      WorkdirAfter(s.instructions[..k], "").value, names, stage, expand)
      == Success(Some(GetBuilderCopiesInStage(s, names, stage, expand).value[FromCopyCount(s.instructions[..k])]))
  {
    CopyAt(s.instructions, k, "", names, stage, expand);
  }

  /** No WORKDIR instruction occurs among the first `k` instructions. */
  predicate NoWorkdirBefore(instrs: seq<Instruction>, k: nat) {
    forall j :: 0 <= j < k && j < |instrs| ==> !instrs[j].Workdir?
  }

  /**
   * A builder copy into a relative destination before any WORKDIR fails the stage:
   * the base image's own working directory cannot be known from the Containerfile.
   */
  lemma {:induction false} RelativeDestinationNeedsWorkdir(instrs: seq<Instruction>, k: nat, names: seq<string>,
                                                           stage: nat, expand: Expander)
    requires InstructionsWellFormed(instrs)
    requires k < |instrs| && NoWorkdirBefore(instrs, k)
    requires instrs[k].CopyInstruction? && FromFlagValue(instrs[k].flags).Some?
    requires !Paths.IsAbs(instrs[k].args[|instrs[k].args| - 1])
    ensures CopiesFrom(instrs, "", names, stage, expand).Failure?
    decreases k
  {
    assert CopyWellFormed(instrs[k]);
    if k > 0 {
      assert InstructionsWellFormed(instrs[1..]) by {
        forall j | 0 <= j < |instrs[1..]| ensures CopyWellFormed(instrs[1..][j]) {
          assert instrs[1..][j] == instrs[j + 1];
        }
      }
      assert NoWorkdirBefore(instrs[1..], k - 1) by {
        forall j | 0 <= j < k - 1 ensures !instrs[1..][j].Workdir? {
          assert instrs[1..][j] == instrs[j + 1];
        }
      }
      assert instrs[1..][k - 1] == instrs[k];
      RelativeDestinationNeedsWorkdir(instrs[1..], k - 1, names, stage, expand);
    }
  }

  /** A relative WORKDIR as the first WORKDIR of a stage fails the stage. */
  lemma {:induction false} RelativeWorkdirFirstFails(instrs: seq<Instruction>, k: nat, names: seq<string>,
                                                     stage: nat, expand: Expander)
    requires InstructionsWellFormed(instrs)
    requires k < |instrs| && NoWorkdirBefore(instrs, k)
    requires instrs[k].Workdir? && !Paths.IsAbs(instrs[k].path)
    ensures CopiesFrom(instrs, "", names, stage, expand).Failure?
    decreases k
  {
    if k > 0 {
      assert CopyWellFormed(instrs[0]);
      assert InstructionsWellFormed(instrs[1..]) by {
        forall j | 0 <= j < |instrs[1..]| ensures CopyWellFormed(instrs[1..][j]) {
          assert instrs[1..][j] == instrs[j + 1];
        }
      }
      assert NoWorkdirBefore(instrs[1..], k - 1) by {
        forall j | 0 <= j < k - 1 ensures !instrs[1..][j].Workdir? {
          assert instrs[1..][j] == instrs[j + 1];
        }
      }
      assert instrs[1..][k - 1] == instrs[k];
      RelativeWorkdirFirstFails(instrs[1..], k - 1, names, stage, expand);
    }
  }

  // ---------------------------------------------------------------------------
  // Aliases and target
  // ---------------------------------------------------------------------------

  /** The stage `j` is the last of the first `n` stages that carries its name. */
  predicate LastWithName(stages: seq<RawStage>, n: nat, j: nat)
    requires j < n <= |stages|
  {
    forall m :: j < m < n ==> stages[m].name != stages[j].name
  }

  /** Adding stage `n - 1` under its name to the keys of the first `n - 1` stages gives the keys of the first `n`. */
  lemma AliasKeysStep(stages: seq<RawStage>, n: nat, prev: map<string, string>, v: string)
    requires 0 < n <= |stages|
    requires forall a :: a in prev <==> exists j :: 0 <= j < n - 1 && stages[j].name == a
    ensures var r := prev[stages[n - 1].name := v];
      forall a :: a in r <==> exists j :: 0 <= j < n && stages[j].name == a
  {
    var r := prev[stages[n - 1].name := v];
    forall a ensures a in r <==> exists j :: 0 <= j < n && stages[j].name == a {
      if a == stages[n - 1].name {
        assert stages[n - 1].name == a;
      }
    }
  }

  /** Adding stage `n - 1` keeps the value of every earlier stage that is still the last with its name. */
  lemma AliasValuesStep(stages: seq<RawStage>, n: nat, expand: Expander, prev: map<string, string>)
    requires 0 < n <= |stages|
    requires forall j :: 0 <= j < n - 1 && LastWithName(stages, n - 1, j) ==>
      stages[j].name in prev && prev[stages[j].name] == expand(j, stages[j].base)
    ensures var r := prev[stages[n - 1].name := expand(n - 1, stages[n - 1].base)];
      forall j :: 0 <= j < n && LastWithName(stages, n, j) ==>
        stages[j].name in r && r[stages[j].name] == expand(j, stages[j].base)
  {
    var last := stages[n - 1].name;
    var r := prev[last := expand(n - 1, stages[n - 1].base)];
    forall j | 0 <= j < n && LastWithName(stages, n, j)
      ensures stages[j].name in r && r[stages[j].name] == expand(j, stages[j].base)
    {
      if j < n - 1 {
        assert stages[j].name != last;
        assert LastWithName(stages, n - 1, j);
      }
    }
  }

  /**
   * The aliases of the first `n` stages mapped to their expanded base images; when a
   * name repeats, the later stage wins.
   */
  function AliasPullspecs(stages: seq<RawStage>, n: nat, expand: Expander): (r: map<string, string>)
    requires n <= |stages|
    ensures forall a :: a in r <==> exists j :: 0 <= j < n && stages[j].name == a
    ensures forall j :: 0 <= j < n && LastWithName(stages, n, j) ==>
      stages[j].name in r && r[stages[j].name] == expand(j, stages[j].base)
    decreases n
  {
    if n == 0 then map[]
    else
      var prev := AliasPullspecs(stages, n - 1, expand);
      AliasKeysStep(stages, n, prev, expand(n - 1, stages[n - 1].base));
      AliasValuesStep(stages, n, expand, prev);
      prev[stages[n - 1].name := expand(n - 1, stages[n - 1].base)]
  }

  /** The alias-to-pullspec map of every stage but the final one, from which nothing may be copied. */
  function MapAliasesToPullspecs(stages: seq<RawStage>, expand: Expander): (r: map<string, string>)
    requires |stages| > 0
    ensures forall a :: a in r <==> exists j :: 0 <= j < |stages| - 1 && stages[j].name == a
    ensures forall j :: 0 <= j < |stages| - 1 && LastWithName(stages, |stages| - 1, j) ==>
      r[stages[j].name] == expand(j, stages[j].base)
  {
    AliasPullspecs(stages, |stages| - 1, expand)
  }

  /** The stages up to and including the first one named `target`. */
  function ThroughTarget(stages: seq<RawStage>, target: string): (r: Option<seq<RawStage>>)
    ensures r.None? <==> forall k :: 0 <= k < |stages| ==> stages[k].name != target
    ensures r.Some? ==>
      && 0 < |r.value| <= |stages|
      && r.value == stages[..|r.value|]
      && r.value[|r.value| - 1].name == target
      && (forall j :: 0 <= j < |r.value| - 1 ==> stages[j].name != target)
    decreases |stages|
  {
    if stages == [] then None
    else if stages[0].name == target then Some(stages[..1])
    else
      match ThroughTarget(stages[1..], target)
      case None => None
      case Some(rest) => Some([stages[0]] + rest)
  }

  /** The stages a build goes through: all of them, or those through the target. */
  function Selected(stages: seq<RawStage>, target: string): Option<seq<RawStage>> {
    if target == "" then Some(stages) else ThroughTarget(stages, target)
  }

  /** The names of the stages up to and including stage `i`. */
  function NamesThrough(stages: seq<RawStage>, i: nat): (r: seq<string>)
    requires i < |stages|
    ensures |r| == i + 1
    ensures forall k :: 0 <= k <= i ==> r[k] == stages[k].name
  {
    seq(i + 1, k requires 0 <= k <= i => stages[k].name)
  }

  predicate StagesWellFormed(stages: seq<RawStage>) {
    forall k :: 0 <= k < |stages| ==> InstructionsWellFormed(stages[k].instructions)
  }

  /** Every stage from `i` on parses its builder copies without error. */
  predicate CopiesParseFrom(stages: seq<RawStage>, i: nat, expand: Expander)
    requires StagesWellFormed(stages)
  {
    forall k :: i <= k < |stages| ==>
      GetBuilderCopiesInStage(stages[k], NamesThrough(stages, k), k, expand).Success?
  }

  /**
   * What parsing promises about stage `k`: the last stage is relabelled as the final
   * stage, every other keeps its name; the pullspec is the one mapped to that alias;
   * the builder copies are those of the stage's own instructions (see CopyAt), well
   * typed against the names up to `k`, one per COPY with a `--from=` flag.
   */
  ghost predicate StageParsed(stages: seq<RawStage>, k: nat, s: Stage, pullspecs: map<string, string>, expand: Expander)
    requires k < |stages|
  {
    && s.alias == (if k == |stages| - 1 then FinalStage else stages[k].name)
    && s.pullspec == Lookup(pullspecs, s.alias)
    && CopiesTyped(s.copies, NamesThrough(stages, k))
    && |s.copies| == FromCopyCount(stages[k].instructions)
    && InstructionsWellFormed(stages[k].instructions)
    && GetBuilderCopiesInStage(stages[k], NamesThrough(stages, k), k, expand) == Success(s.copies)
  }

  lemma CopiesParseFromStep(stages: seq<RawStage>, i: nat, expand: Expander)
    requires i < |stages| && StagesWellFormed(stages)
    ensures CopiesParseFrom(stages, i, expand) <==>
      GetBuilderCopiesInStage(stages[i], NamesThrough(stages, i), i, expand).Success? && CopiesParseFrom(stages, i + 1, expand)
  {
  }

  lemma StageParsedCons(stages: seq<RawStage>, i: nat, pullspecs: map<string, string>, expand: Expander, s: Stage, rest: seq<Stage>)
    requires i + 1 + |rest| <= |stages|
    requires StageParsed(stages, i, s, pullspecs, expand)
    requires forall j :: 0 <= j < |rest| ==> StageParsed(stages, i + 1 + j, rest[j], pullspecs, expand)
    ensures forall j :: 0 <= j < |[s] + rest| ==> StageParsed(stages, i + j, ([s] + rest)[j], pullspecs, expand)
  {
    forall j | 0 <= j < |[s] + rest| ensures StageParsed(stages, i + j, ([s] + rest)[j], pullspecs, expand) {
      if j > 0 {
        assert ([s] + rest)[j] == rest[j - 1];
        assert StageParsed(stages, i + 1 + (j - 1), rest[j - 1], pullspecs, expand);
      }
    }
  }

  /** The parsed stages from index `i` on. */
  function BuildStages(stages: seq<RawStage>, i: nat, pullspecs: map<string, string>, expand: Expander): (r: Result<seq<Stage>, ParseError>)
    requires i <= |stages|
    requires StagesWellFormed(stages)
    ensures r.Success? <==> CopiesParseFrom(stages, i, expand)
    ensures r.Failure? ==> r.error.ErrAmbiguousRelativePath?
    ensures r.Success? ==> |r.value| == |stages| - i
    ensures r.Success? ==> forall j :: 0 <= j < |r.value| ==> StageParsed(stages, i + j, r.value[j], pullspecs, expand)
    decreases |stages| - i
  {
    if i == |stages| then Success([])
    else
      CopiesParseFromStep(stages, i, expand);
      var alias := if i == |stages| - 1 then FinalStage else stages[i].name;
      var here := GetBuilderCopiesInStage(stages[i], NamesThrough(stages, i), i, expand);
      if here.Failure? then Failure(here.error)
      else
        var rest := BuildStages(stages, i + 1, pullspecs, expand);
        if rest.Failure? then Failure(rest.error)
        else
          var s := Stage(alias, Lookup(pullspecs, alias), here.value);
          StageParsedCons(stages, i, pullspecs, expand, s, rest.value);
          Success([s] + rest.value)
  }

  /** Parsing produced one stage per selected raw stage, each as StageParsed describes. */
  ghost predicate ParsedFrom(sel: seq<RawStage>, out: seq<Stage>, expand: Expander)
    requires |sel| > 0
  {
    && |out| == |sel|
    && forall k :: 0 <= k < |sel| ==> StageParsed(sel, k, out[k], MapAliasesToPullspecs(sel, expand), expand)
  }

  /** Parsing of the selected stages. */
  function ParseStages(sel: seq<RawStage>, expand: Expander): (r: Result<seq<Stage>, ParseError>)
    requires |sel| > 0
    requires StagesWellFormed(sel)
    ensures r.Success? <==> CopiesParseFrom(sel, 0, expand)
    ensures r.Failure? ==> r.error.ErrAmbiguousRelativePath?
    ensures r.Success? ==> ParsedFrom(sel, r.value, expand)
  {
    BuildStages(sel, 0, MapAliasesToPullspecs(sel, expand), expand)
  }

  /**
   * Containerfile parsing: select the stages through the target, map aliases to
   * base images, and parse every stage's builder copies; the last selected stage
   * becomes the final stage, while copies in it may still name it by its own name.
   */
  function Parse(raw: seq<RawStage>, target: string, expand: Expander): (r: Result<seq<Stage>, ParseError>)
    requires |raw| > 0
    requires StagesWellFormed(raw)
    ensures r == Failure(ErrTargetNotFound(target)) <==>
      target != "" && forall k :: 0 <= k < |raw| ==> raw[k].name != target
    ensures r.Success? <==>
      Selected(raw, target).Some? && CopiesParseFrom(Selected(raw, target).value, 0, expand)
    ensures r.Success? ==> ParsedFrom(Selected(raw, target).value, r.value, expand)
  {
    match Selected(raw, target)
    case None => Failure(ErrTargetNotFound(target))
    case Some(sel) =>
      assert StagesWellFormed(sel) by {
        forall k | 0 <= k < |sel| ensures InstructionsWellFormed(sel[k].instructions) {
          assert sel[k] == raw[k];
        }
      }
      ParseStages(sel, expand)
  }

  /** Every stage but the last keeps its name; the last is the final stage. */
  lemma ParsedAliases(sel: seq<RawStage>, out: seq<Stage>, expand: Expander)
    requires |sel| > 0 && ParsedFrom(sel, out, expand)
    ensures out[|sel| - 1].alias == FinalStage
    ensures forall k :: 0 <= k < |sel| - 1 ==> out[k].alias == sel[k].name
  {
    assert StageParsed(sel, |sel| - 1, out[|sel| - 1], MapAliasesToPullspecs(sel, expand), expand);
  }

  /**
   * A builder stage's pullspec is the expanded base image of the last stage with its
   * alias; the final stage gets none unless a builder stage carries the empty alias.
   */
  lemma ParsedPullspecs(sel: seq<RawStage>, out: seq<Stage>, expand: Expander)
    requires |sel| > 0 && ParsedFrom(sel, out, expand)
    ensures forall k :: 0 <= k < |sel| - 1 && LastWithName(sel, |sel| - 1, k) ==>
      out[k].pullspec == expand(k, sel[k].base)
    ensures (forall k :: 0 <= k < |sel| - 1 ==> sel[k].name != FinalStage) ==> out[|sel| - 1].pullspec == ""
  {
    var pullspecs := MapAliasesToPullspecs(sel, expand);
    forall k | 0 <= k < |sel| - 1 && LastWithName(sel, |sel| - 1, k)
      ensures out[k].pullspec == expand(k, sel[k].base)
    {
      assert StageParsed(sel, k, out[k], pullspecs, expand);
    }
    if forall k :: 0 <= k < |sel| - 1 ==> sel[k].name != FinalStage {
      assert FinalStage !in pullspecs;
      assert StageParsed(sel, |sel| - 1, out[|sel| - 1], pullspecs, expand);
    }
  }

  /** Every parsed copy has an absolute destination and is of type Builder exactly when it names a stage up to its own. */
  lemma ParsedCopies(sel: seq<RawStage>, out: seq<Stage>, expand: Expander)
    requires |sel| > 0 && ParsedFrom(sel, out, expand)
    ensures forall k, c :: 0 <= k < |sel| && c in out[k].copies ==>
      Paths.IsAbs(c.destination) && (c.kind == CopyTypeBuilder <==> c.from in NamesThrough(sel, k))
  {
    forall k, c | 0 <= k < |sel| && c in out[k].copies
      ensures Paths.IsAbs(c.destination) && (c.kind == CopyTypeBuilder <==> c.from in NamesThrough(sel, k))
    {
      assert StageParsed(sel, k, out[k], MapAliasesToPullspecs(sel, expand), expand);
    }
  }
}
