/** The CarveMe wrapper's command line: the argument vector handed to
    `carve`, grown option by option from the parsed arguments. Options of a
    mutually exclusive group are emitted by priority, and tuning scores
    only when they differ from their defaults. */
module Carve {

  import opened Wrappers
  import opened Strings

  /** The parsed arguments that reach the command. Optional arguments that
      argparse leaves as None are `None`. */
  datatype CarveArgs = CarveArgs(
    input: string,
    output: string,
    tsv: bool,
    processes: int,
    dna: bool,
    egg: bool,
    diamond: bool,
    refseq: bool,
    diamondArgs: Option<string>,
    cobra: bool,
    fbc2: bool,
    ensemble: Option<int>,
    soft: Option<string>,
    hard: Option<string>,
    reference: Option<string>,
    solver: string,
    defaultScore: real,
    uptakeScore: real,
    softScore: real,
    referenceScore: real,
    blindGapfill: bool)

  /** Lines 9-11, with the processor count as a parameter: one process
      fewer than there are processors, and never fewer than one. */
  function DefaultProcesses(cpuCount: int): (r: int)
    ensures r >= 1
    ensures cpuCount >= 2 ==> r == cpuCount - 1
    ensures cpuCount <= 2 ==> r == 1
  {
    if cpuCount - 1 > 1 then cpuCount - 1 else 1
  }

  /** The flags the wrapper can pass on to `carve`. */
  datatype Flag =
    | Tsv | Processes | Solver
    | Dna | Egg | Diamond | Refseq
    | DiamondArgs | Cobra | Fbc2 | Ensemble
    | Soft | Hard | Reference
    | DefaultScore | UptakeScore | SoftScore | ReferenceScore | BlindGapfill

  /** How each flag is spelled on the command line. */
  function Name(f: Flag): string
  {
    match f
    case Tsv => "--tsv"
    case Processes => "--processes"
    case Solver => "--solver"
    case Dna => "--dna"
    case Egg => "--egg"
    case Diamond => "--diamond"
    case Refseq => "--refseq"
    case DiamondArgs => "--diamond-args"
    case Cobra => "--cobra"
    case Fbc2 => "--fbc2"
    case Ensemble => "-n"
    case Soft => "--soft"
    case Hard => "--hard"
    case Reference => "--reference"
    case DefaultScore => "--default-score"
    case UptakeScore => "--uptake-score"
    case SoftScore => "--soft-score"
    case ReferenceScore => "--reference-score"
    case BlindGapfill => "--blind-gapfill"
  }

  /** One option on the command line: its flag and the values after it. */
  datatype Opt = Opt(flag: Flag, values: seq<string>)

  /** Python truthiness of an optional string and an optional integer. */
  predicate Given(s: Option<string>)
  {
    s.Some? && s.value != ""
  }

  predicate GivenInt(n: Option<int>)
  {
    n.Some? && n.value != 0
  }

  function When(c: bool, o: Opt): seq<Opt>
  {
    if c then [o] else []
  }

  function WhenGiven(flag: Flag, s: Option<string>): seq<Opt>
  {
    if Given(s) then [Opt(flag, [s.value])] else []
  }

  /** A score option, present only when its value is not the default. */
  function Score(flag: Flag, value: real, default: real, show: real -> string): seq<Opt>
  {
    When(value != default, Opt(flag, [show(value)]))
  }

  /** Lines 115-122: the first input type given, by priority. */
  function InputType(a: CarveArgs): seq<Opt>
  {
    if a.dna then [Opt(Dna, [])]
    else if a.egg then [Opt(Egg, [])]
    else if a.diamond then [Opt(Diamond, [])]
    else if a.refseq then [Opt(Refseq, [])]
    else []
  }

  /** Lines 127-130. */
  function Format(a: CarveArgs): seq<Opt>
  {
    if a.cobra then [Opt(Cobra, [])] else if a.fbc2 then [Opt(Fbc2, [])] else []
  }

  /** Lines 132-133: a missing or zero ensemble size emits nothing. */
  function EnsembleSize(a: CarveArgs): seq<Opt>
  {
    if GivenInt(a.ensemble) then [Opt(Ensemble, [IntToString(a.ensemble.value)])] else []
  }

  /** Lines 106-112: the parallel mode and the solver. */
  function RunOptions(a: CarveArgs): seq<Opt>
  {
    When(a.tsv, Opt(Tsv, []))
    + When(a.tsv, Opt(Processes, [IntToString(a.processes)]))
    + [Opt(Solver, [a.solver])]
  }

  /** Lines 115-133: the input type, diamond's arguments, the output
      format and the ensemble size. */
  function InputOptions(a: CarveArgs): seq<Opt>
  {
    InputType(a) + WhenGiven(DiamondArgs, a.diamondArgs) + Format(a) + EnsembleSize(a)
  }

  /** Lines 135-140: constraint and reference files. */
  function ConstraintOptions(a: CarveArgs): seq<Opt>
  {
    WhenGiven(Soft, a.soft) + WhenGiven(Hard, a.hard) + WhenGiven(Reference, a.reference)
  }

  /** Lines 142-149: the tuning scores, each only away from its default.
      How Python renders a float is the parameter `show`. */
  function ScoreOptions(a: CarveArgs, show: real -> string): seq<Opt>
  {
    Score(DefaultScore, a.defaultScore, -1.0, show)
    + Score(UptakeScore, a.uptakeScore, 0.0, show)
    + Score(SoftScore, a.softScore, 1.0, show)
    + Score(ReferenceScore, a.referenceScore, 0.0, show)
  }

  /** Lines 150-151. */
  function GapfillOption(a: CarveArgs): seq<Opt>
  {
    When(a.blindGapfill, Opt(BlindGapfill, []))
  }

  /** Lines 115-151: everything after the solver. */
  function LaterOptions(a: CarveArgs, show: real -> string): seq<Opt>
  {
    InputOptions(a) + ConstraintOptions(a) + ScoreOptions(a, show) + GapfillOption(a)
  }

  /** The options in the order lines 106-151 emit them. */
  function Options(a: CarveArgs, show: real -> string): seq<Opt>
  {
    RunOptions(a) + LaterOptions(a, show)
  }

  /** The options written out, each flag followed by its values. */
  function Render(opts: seq<Opt>): seq<string>
  {
    if opts == [] then [] else [Name(opts[0].flag)] + opts[0].values + Render(opts[1..])
  }

  function Flags(opts: seq<Opt>): (r: seq<Flag>)
    ensures |r| == |opts| && forall i :: 0 <= i < |opts| ==> r[i] == opts[i].flag
  {
    seq(|opts|, i requires 0 <= i < |opts| => opts[i].flag)
  }

  /** The whole argument vector. */
  function CarveCommand(a: CarveArgs, show: real -> string): seq<string>
  {
    ["carve", a.input, "-o", a.output] + Render(Options(a, show))
  }

  /** Every flag emitted, in order. */
  function CommandFlags(a: CarveArgs, show: real -> string): seq<Flag>
  {
    Flags(Options(a, show))
  }

  lemma {:induction false} RenderAppend(xs: seq<Opt>, ys: seq<Opt>)
    ensures Render(xs + ys) == Render(xs) + Render(ys)
    decreases |xs|
  {
    if xs == [] {
      assert xs + ys == ys;
    } else {
      assert (xs + ys)[1..] == xs[1..] + ys;
      RenderAppend(xs[1..], ys);
    }
  }

  lemma RenderOne(o: Opt)
    ensures Render([o]) == [Name(o.flag)] + o.values
  {
    assert [o][1..] == [];
  }

  /** A piece of at most one option renders as that option. */
  lemma RenderSmall(piece: seq<Opt>)
    requires |piece| <= 1
    ensures Render(piece) == if piece == [] then [] else [Name(piece[0].flag)] + piece[0].values
  {
    if piece != [] {
      assert piece[1..] == [];
    }
  }

  /** One more piece emitted is one more rendered piece at the end. */
  lemma Extended(base: seq<string>, done: seq<Opt>, p: seq<Opt>)
    ensures base + Render(done + p) == base + Render(done) + Render(p)
  {
    RenderAppend(done, p);
  }

  // Each step below extends the command; the ghost `done` follows the
  // options emitted so far, so that the command stays `base` followed by
  // their rendering.

  /** `cmd.extend([flag] + values)` when c holds. */
  method ExtendWhen(cmd0: seq<string>, c: bool, o: Opt, ghost base: seq<string>, ghost done0: seq<Opt>)
    returns (cmd: seq<string>, ghost done: seq<Opt>)
    requires cmd0 == base + Render(done0)
    ensures cmd == cmd0 + Render(When(c, o))
    ensures done == done0 + When(c, o) && cmd == base + Render(done)
  {
    RenderSmall(When(c, o));
    Extended(base, done0, When(c, o));
    cmd := cmd0;
    if c {
      cmd := cmd + [Name(o.flag)] + o.values;
    }
    done := done0 + When(c, o);
  }

  /** `if value: cmd.extend([flag, value])` for an optional text. */
  method ExtendGiven(cmd0: seq<string>, flag: Flag, value: Option<string>, ghost base: seq<string>, ghost done0: seq<Opt>)
    returns (cmd: seq<string>, ghost done: seq<Opt>)
    requires cmd0 == base + Render(done0)
    ensures cmd == cmd0 + Render(WhenGiven(flag, value))
    ensures done == done0 + WhenGiven(flag, value) && cmd == base + Render(done)
  {
    RenderSmall(WhenGiven(flag, value));
    Extended(base, done0, WhenGiven(flag, value));
    cmd := cmd0;
    if Given(value) {
      cmd := cmd + [Name(flag), value.value];
    }
    done := done0 + WhenGiven(flag, value);
  }

  /** `if value != default: cmd.extend([flag, str(value)])`. */
  method ExtendScore(cmd0: seq<string>, flag: Flag, value: real, default: real, show: real -> string,
                     ghost base: seq<string>, ghost done0: seq<Opt>)
    returns (cmd: seq<string>, ghost done: seq<Opt>)
    requires cmd0 == base + Render(done0)
    ensures cmd == cmd0 + Render(Score(flag, value, default, show))
    ensures done == done0 + Score(flag, value, default, show) && cmd == base + Render(done)
  {
    cmd, done := ExtendWhen(cmd0, value != default, Opt(flag, [show(value)]), base, done0);
  }

  /** Lines 115-122: the first input type given, by priority. */
  method ExtendInputType(cmd0: seq<string>, a: CarveArgs, ghost base: seq<string>, ghost done0: seq<Opt>)
    returns (cmd: seq<string>, ghost done: seq<Opt>)
    requires cmd0 == base + Render(done0)
    ensures cmd == cmd0 + Render(InputType(a))
    ensures done == done0 + InputType(a) && cmd == base + Render(done)
  {
    RenderSmall(InputType(a));
    Extended(base, done0, InputType(a));
    cmd := cmd0;
    if a.dna {
      cmd := cmd + [Name(Dna)];
    } else if a.egg {
      cmd := cmd + [Name(Egg)];
    } else if a.diamond {
      cmd := cmd + [Name(Diamond)];
    } else if a.refseq {
      cmd := cmd + [Name(Refseq)];
    }
    done := done0 + InputType(a);
  }

  /** Lines 127-130: `--cobra` wins over `--fbc2`. */
  method ExtendFormat(cmd0: seq<string>, a: CarveArgs, ghost base: seq<string>, ghost done0: seq<Opt>)
    returns (cmd: seq<string>, ghost done: seq<Opt>)
    requires cmd0 == base + Render(done0)
    ensures cmd == cmd0 + Render(Format(a))
    ensures done == done0 + Format(a) && cmd == base + Render(done)
  {
    RenderSmall(Format(a));
    Extended(base, done0, Format(a));
    cmd := cmd0;
    if a.cobra {
      cmd := cmd + [Name(Cobra)];
    } else if a.fbc2 {
      cmd := cmd + [Name(Fbc2)];
    }
    done := done0 + Format(a);
  }

  /** Lines 132-133. */
  method ExtendEnsemble(cmd0: seq<string>, a: CarveArgs, ghost base: seq<string>, ghost done0: seq<Opt>)
    returns (cmd: seq<string>, ghost done: seq<Opt>)
    requires cmd0 == base + Render(done0)
    ensures cmd == cmd0 + Render(EnsembleSize(a))
    ensures done == done0 + EnsembleSize(a) && cmd == base + Render(done)
  {
    RenderSmall(EnsembleSize(a));
    Extended(base, done0, EnsembleSize(a));
    cmd := cmd0;
    if GivenInt(a.ensemble) {
      cmd := cmd + [Name(Ensemble), IntToString(a.ensemble.value)];
    }
    done := done0 + EnsembleSize(a);
  }

  method ExtendRun(cmd0: seq<string>, a: CarveArgs, ghost base: seq<string>, ghost done0: seq<Opt>)
    returns (cmd: seq<string>, ghost done: seq<Opt>)
    requires cmd0 == base + Render(done0)
    ensures cmd == cmd0 + Render(RunOptions(a))
    ensures done == done0 + RunOptions(a) && cmd == base + Render(done)
  {
    ghost var d: seq<Opt> := [];
    assert cmd0 == cmd0 + Render(d);
    cmd, d := ExtendWhen(cmd0, a.tsv, Opt(Tsv, []), cmd0, d);
    cmd, d := ExtendWhen(cmd, a.tsv, Opt(Processes, [IntToString(a.processes)]), cmd0, d);
    cmd, d := ExtendWhen(cmd, true, Opt(Solver, [a.solver]), cmd0, d);
    assert d == RunOptions(a);
    Extended(base, done0, d);
    done := done0 + d;
  }

  method ExtendInput(cmd0: seq<string>, a: CarveArgs, ghost base: seq<string>, ghost done0: seq<Opt>)
    returns (cmd: seq<string>, ghost done: seq<Opt>)
    requires cmd0 == base + Render(done0)
    ensures cmd == cmd0 + Render(InputOptions(a))
    ensures done == done0 + InputOptions(a) && cmd == base + Render(done)
  {
    ghost var d: seq<Opt> := [];
    assert cmd0 == cmd0 + Render(d);
    cmd, d := ExtendInputType(cmd0, a, cmd0, d);
    cmd, d := ExtendGiven(cmd, DiamondArgs, a.diamondArgs, cmd0, d);
    cmd, d := ExtendFormat(cmd, a, cmd0, d);
    cmd, d := ExtendEnsemble(cmd, a, cmd0, d);
    assert d == InputOptions(a);
    Extended(base, done0, d);
    done := done0 + d;
  }

  method ExtendConstraints(cmd0: seq<string>, a: CarveArgs, ghost base: seq<string>, ghost done0: seq<Opt>)
    returns (cmd: seq<string>, ghost done: seq<Opt>)
    requires cmd0 == base + Render(done0)
    ensures cmd == cmd0 + Render(ConstraintOptions(a))
    ensures done == done0 + ConstraintOptions(a) && cmd == base + Render(done)
  {
    ghost var d: seq<Opt> := [];
    assert cmd0 == cmd0 + Render(d);
    cmd, d := ExtendGiven(cmd0, Soft, a.soft, cmd0, d);
    cmd, d := ExtendGiven(cmd, Hard, a.hard, cmd0, d);
    cmd, d := ExtendGiven(cmd, Reference, a.reference, cmd0, d);
    assert d == ConstraintOptions(a);
    Extended(base, done0, d);
    done := done0 + d;
  }

  method ExtendScores(cmd0: seq<string>, a: CarveArgs, show: real -> string, ghost base: seq<string>, ghost done0: seq<Opt>)
    returns (cmd: seq<string>, ghost done: seq<Opt>)
    requires cmd0 == base + Render(done0)
    ensures cmd == cmd0 + Render(ScoreOptions(a, show))
    ensures done == done0 + ScoreOptions(a, show) && cmd == base + Render(done)
  {
    ghost var d: seq<Opt> := [];
    assert cmd0 == cmd0 + Render(d);
    cmd, d := ExtendScore(cmd0, DefaultScore, a.defaultScore, -1.0, show, cmd0, d);
    cmd, d := ExtendScore(cmd, UptakeScore, a.uptakeScore, 0.0, show, cmd0, d);
    cmd, d := ExtendScore(cmd, SoftScore, a.softScore, 1.0, show, cmd0, d);
    cmd, d := ExtendScore(cmd, ReferenceScore, a.referenceScore, 0.0, show, cmd0, d);
    assert d == ScoreOptions(a, show);
    Extended(base, done0, d);
    done := done0 + d;
  }

  method ExtendLater(cmd0: seq<string>, a: CarveArgs, show: real -> string, ghost base: seq<string>, ghost done0: seq<Opt>)
    returns (cmd: seq<string>, ghost done: seq<Opt>)
    requires cmd0 == base + Render(done0)
    ensures cmd == cmd0 + Render(LaterOptions(a, show))
    ensures done == done0 + LaterOptions(a, show) && cmd == base + Render(done)
  {
    ghost var d: seq<Opt> := [];
    assert cmd0 == cmd0 + Render(d);
    cmd, d := ExtendInput(cmd0, a, cmd0, d);
    cmd, d := ExtendConstraints(cmd, a, cmd0, d);
    cmd, d := ExtendScores(cmd, a, show, cmd0, d);
    cmd, d := ExtendWhen(cmd, a.blindGapfill, Opt(BlindGapfill, []), cmd0, d);
    assert [] + InputOptions(a) == InputOptions(a);
    assert d == LaterOptions(a, show);
    Extended(base, done0, d);
    done := done0 + d;
  }

  /** Lines 100-153: the command starts with the input and the output
      folder, then grows option by option. */
  method BuildCarveCommand(a: CarveArgs, show: real -> string) returns (cmd: seq<string>)
    ensures cmd == CarveCommand(a, show)
  {
    var base := ["carve", a.input, "-o", a.output];
    ghost var done: seq<Opt> := [];
    assert base == base + Render(done);
    cmd, done := ExtendRun(base, a, base, done);
    cmd, done := ExtendLater(cmd, a, show, base, done);
    assert [] + RunOptions(a) == RunOptions(a);
  }

  // Properties of the command.

  /** Distinct flags are spelled differently, so the flags emitted can be
      read back from the command line. */
  lemma NameInjective(f: Flag, g: Flag)
    ensures Name(f) == Name(g) <==> f == g
  {
  }

  lemma FlagsAppend(xs: seq<Opt>, ys: seq<Opt>)
    ensures Flags(xs + ys) == Flags(xs) + Flags(ys)
  {
    assert forall i :: 0 <= i < |xs| ==> (xs + ys)[i] == xs[i];
    assert forall i :: |xs| <= i < |xs| + |ys| ==> (xs + ys)[i] == ys[i - |xs|];
  }

  /** The flags of a piece of at most one option. */
  lemma FlagsSmall(piece: seq<Opt>)
    requires |piece| <= 1
    ensures Flags(piece) == if piece == [] then [] else [piece[0].flag]
  {
  }

  function Mark(c: bool, f: Flag): seq<Flag>
  {
    if c then [f] else []
  }

  lemma RunFlagsOf(a: CarveArgs)
    ensures Flags(RunOptions(a)) == Mark(a.tsv, Tsv) + Mark(a.tsv, Processes) + [Solver]
  {
    var p0 := When(a.tsv, Opt(Tsv, []));
    var p1 := When(a.tsv, Opt(Processes, [IntToString(a.processes)]));
    FlagsAppend(p0 + p1, [Opt(Solver, [a.solver])]);
    FlagsAppend(p0, p1);
    FlagsSmall(p0);
    FlagsSmall(p1);
  }

  lemma InputFlagsOf(a: CarveArgs)
    ensures Flags(InputOptions(a))
         == Flags(InputType(a)) + Mark(Given(a.diamondArgs), DiamondArgs) + Flags(Format(a)) + Mark(GivenInt(a.ensemble), Ensemble)
  {
    var p0 := InputType(a);
    var p1 := WhenGiven(DiamondArgs, a.diamondArgs);
    var p2 := Format(a);
    var p3 := EnsembleSize(a);
    FlagsAppend(p0 + p1 + p2, p3);
    FlagsAppend(p0 + p1, p2);
    FlagsAppend(p0, p1);
    FlagsSmall(p1);
    FlagsSmall(p3);
  }

  lemma ConstraintFlagsOf(a: CarveArgs)
    ensures Flags(ConstraintOptions(a))
         == Mark(Given(a.soft), Soft) + Mark(Given(a.hard), Hard) + Mark(Given(a.reference), Reference)
  {
    var p0 := WhenGiven(Soft, a.soft);
    var p1 := WhenGiven(Hard, a.hard);
    var p2 := WhenGiven(Reference, a.reference);
    FlagsAppend(p0 + p1, p2);
    FlagsAppend(p0, p1);
    FlagsSmall(p0);
    FlagsSmall(p1);
    FlagsSmall(p2);
  }

  lemma ScoreFlagsOf(a: CarveArgs, show: real -> string)
    ensures Flags(ScoreOptions(a, show))
         == Mark(a.defaultScore != -1.0, DefaultScore)
          + Mark(a.uptakeScore != 0.0, UptakeScore)
          + Mark(a.softScore != 1.0, SoftScore)
          + Mark(a.referenceScore != 0.0, ReferenceScore)
  {
    var p0 := Score(DefaultScore, a.defaultScore, -1.0, show);
    var p1 := Score(UptakeScore, a.uptakeScore, 0.0, show);
    var p2 := Score(SoftScore, a.softScore, 1.0, show);
    var p3 := Score(ReferenceScore, a.referenceScore, 0.0, show);
    FlagsAppend(p0 + p1 + p2, p3);
    FlagsAppend(p0 + p1, p2);
    FlagsAppend(p0, p1);
    FlagsSmall(p0);
    FlagsSmall(p1);
    FlagsSmall(p2);
    FlagsSmall(p3);
  }

  /** The option group that emits each flag. */
  function Group(f: Flag): nat
  {
    match f
    case Tsv | Processes | Solver => 0
    case Dna | Egg | Diamond | Refseq | DiamondArgs | Cobra | Fbc2 | Ensemble => 1
    case Soft | Hard | Reference => 2
    case DefaultScore | UptakeScore | SoftScore | ReferenceScore => 3
    case BlindGapfill => 4
  }

  /** When lines 106-151 emit each flag. */
  predicate Present(a: CarveArgs, f: Flag)
  {
    match f
    case Tsv | Processes => a.tsv
    case Solver => true
    case Dna => a.dna
    case Egg => !a.dna && a.egg
    case Diamond => !a.dna && !a.egg && a.diamond
    case Refseq => !a.dna && !a.egg && !a.diamond && a.refseq
    case DiamondArgs => Given(a.diamondArgs)
    case Cobra => a.cobra
    case Fbc2 => !a.cobra && a.fbc2
    case Ensemble => GivenInt(a.ensemble)
    case Soft => Given(a.soft)
    case Hard => Given(a.hard)
    case Reference => Given(a.reference)
    case DefaultScore => a.defaultScore != -1.0
    case UptakeScore => a.uptakeScore != 0.0
    case SoftScore => a.softScore != 1.0
    case ReferenceScore => a.referenceScore != 0.0
    case BlindGapfill => a.blindGapfill
  }

  lemma RunFlagsIn(a: CarveArgs, f: Flag)
    ensures (f in Flags(RunOptions(a))) <==> Group(f) == 0 && Present(a, f)
  {
    RunFlagsOf(a);
  }

  lemma InputTypeFlagsIn(a: CarveArgs, f: Flag)
    ensures (f in Flags(InputType(a))) <==> (f == Dna || f == Egg || f == Diamond || f == Refseq) && Present(a, f)
  {
    FlagsSmall(InputType(a));
  }

  lemma FormatFlagsIn(a: CarveArgs, f: Flag)
    ensures (f in Flags(Format(a))) <==> (f == Cobra || f == Fbc2) && Present(a, f)
  {
    FlagsSmall(Format(a));
  }

  lemma InputFlagsIn(a: CarveArgs, f: Flag)
    ensures (f in Flags(InputOptions(a))) <==> Group(f) == 1 && Present(a, f)
  {
    InputFlagsOf(a);
    InputTypeFlagsIn(a, f);
    FormatFlagsIn(a, f);
  }

  lemma ConstraintFlagsIn(a: CarveArgs, f: Flag)
    ensures (f in Flags(ConstraintOptions(a))) <==> Group(f) == 2 && Present(a, f)
  {
    ConstraintFlagsOf(a);
  }

  lemma ScoreFlagsIn(a: CarveArgs, show: real -> string, f: Flag)
    ensures (f in Flags(ScoreOptions(a, show))) <==> Group(f) == 3 && Present(a, f)
  {
    ScoreFlagsOf(a, show);
  }

  lemma GapfillFlagsIn(a: CarveArgs, f: Flag)
    ensures (f in Flags(GapfillOption(a))) <==> Group(f) == 4 && Present(a, f)
  {
    FlagsSmall(GapfillOption(a));
  }

  /** Lines 106-151: a flag is on the command line exactly when its
      condition holds: `--tsv` and `--processes` in parallel mode, the
      solver always, the first input type by priority, `--cobra` over
      `--fbc2`, `-n` for a truthy ensemble size, a file option when given,
      a score away from its default. */
  lemma FlagPresence(a: CarveArgs, show: real -> string, f: Flag)
    ensures (f in CommandFlags(a, show)) <==> Present(a, f)
  {
    var r := RunOptions(a);
    var i := InputOptions(a);
    var c := ConstraintOptions(a);
    var sc := ScoreOptions(a, show);
    var g := GapfillOption(a);
    FlagsAppend(r, LaterOptions(a, show));
    FlagsAppend(i + c + sc, g);
    FlagsAppend(i + c, sc);
    FlagsAppend(i, c);
    RunFlagsIn(a, f);
    InputFlagsIn(a, f);
    ConstraintFlagsIn(a, f);
    ScoreFlagsIn(a, show, f);
    GapfillFlagsIn(a, f);
  }

  /** Lines 115-122: at most one input type flag. */
  lemma OneInputType(a: CarveArgs, show: real -> string, f: Flag, g: Flag)
    requires f in {Dna, Egg, Diamond, Refseq} && g in {Dna, Egg, Diamond, Refseq}
    requires f in CommandFlags(a, show) && g in CommandFlags(a, show)
    ensures f == g
  {
    FlagPresence(a, show, f);
    FlagPresence(a, show, g);
  }

  /** Lines 127-130: never both output formats. */
  lemma OneFormat(a: CarveArgs, show: real -> string)
    ensures !(Cobra in CommandFlags(a, show) && Fbc2 in CommandFlags(a, show))
  {
    FlagPresence(a, show, Cobra);
    FlagPresence(a, show, Fbc2);
  }

  /** Line 103: the command opens with the program, the input and the
      output folder, whatever the options; lines 106-112: then `--tsv` and
      `--processes <n>` exactly in parallel mode, then the solver. */
  lemma CommandStart(a: CarveArgs, show: real -> string)
    ensures CarveCommand(a, show)[..4] == ["carve", a.input, "-o", a.output]
    ensures a.tsv ==>
      |CarveCommand(a, show)| >= 9 && CarveCommand(a, show)[4..9] == ["--tsv", "--processes", IntToString(a.processes), "--solver", a.solver]
    ensures !a.tsv ==> |CarveCommand(a, show)| >= 6 && CarveCommand(a, show)[4..6] == ["--solver", a.solver]
  {
    RenderAppend(RunOptions(a), LaterOptions(a, show));
    RunRendered(a);
  }

  /** How lines 106-112 render. */
  lemma RunRendered(a: CarveArgs)
    ensures a.tsv ==> Render(RunOptions(a)) == ["--tsv", "--processes", IntToString(a.processes), "--solver", a.solver]
    ensures !a.tsv ==> Render(RunOptions(a)) == ["--solver", a.solver]
  {
    var tsv := When(a.tsv, Opt(Tsv, []));
    var processes := When(a.tsv, Opt(Processes, [IntToString(a.processes)]));
    var solver := [Opt(Solver, [a.solver])];
    RenderAppend(tsv + processes, solver);
    RenderAppend(tsv, processes);
    RenderSmall(tsv);
    RenderSmall(processes);
    RenderOne(solver[0]);
  }
}
