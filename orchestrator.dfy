/** `main`: print the start message, load the file once, then run the selected analyzers in
    a fixed order. Flags arrive as plain booleans; the trace of what the program does is the
    result. */
module Orchestrator {
  import opened Basics
  import Frames
  import Core
  import Loader

  datatype Analyzer = BasicStats | NullCounts | Schema | SummaryStats | CategoricalInfo | Duplicates | Outliers

  /** The seven analyzer flags. */
  datatype Flags = Flags(
    basicStats: bool, nullCounts: bool, schema: bool, summaryStats: bool,
    categoricalInfo: bool, duplicates: bool, outliers: bool)

  /** The default of `--null_threshold`. */
  const DefaultNullThreshold: int := 10

  datatype Args = Args(input: string, verbose: bool, nullThreshold: int, flags: Flags)

  /** The arguments Click hands to `main`: `--null_threshold` falls back to its default when
      it is not given on the command line. */
  function CommandArgs(input: string, verbose: bool, nullThreshold: Option<int>, flags: Flags): (args: Args)
    ensures args.input == input && args.verbose == verbose && args.flags == flags
    ensures nullThreshold.None? ==> args.nullThreshold == DefaultNullThreshold
    ensures nullThreshold.Some? ==> args.nullThreshold == nullThreshold.value
  {
    Args(input, verbose, match nullThreshold case None => DefaultNullThreshold case Some(t) => t, flags)
  }

  function Flag(flags: Flags, a: Analyzer): bool {
    match a
    case BasicStats => flags.basicStats
    case NullCounts => flags.nullCounts
    case Schema => flags.schema
    case SummaryStats => flags.summaryStats
    case CategoricalInfo => flags.categoricalInfo
    case Duplicates => flags.duplicates
    case Outliers => flags.outliers
  }

  /** `run_all = not any([...])`. */
  function RunAll(flags: Flags): bool {
    !(flags.basicStats || flags.nullCounts || flags.schema || flags.summaryStats
      || flags.categoricalInfo || flags.duplicates || flags.outliers)
  }

  /** The order of the guarded calls in `main`. */
  const Pipeline: seq<Analyzer> := [BasicStats, NullCounts, Schema, SummaryStats, CategoricalInfo, Duplicates, Outliers]

  function Rank(a: Analyzer): nat {
    match a
    case BasicStats => 0
    case NullCounts => 1
    case Schema => 2
    case SummaryStats => 3
    case CategoricalInfo => 4
    case Duplicates => 5
    case Outliers => 6
  }

  /** Walks `todo` and keeps each analyzer whose `if run_all or <flag>:` guard holds. */
  function Guarded(todo: seq<Analyzer>, flags: Flags): (run: seq<Analyzer>)
    ensures forall a :: a in run <==> a in todo && (RunAll(flags) || Flag(flags, a))
    ensures |run| <= |todo|
  {
    if todo == [] then []
    else (if RunAll(flags) || Flag(flags, todo[0]) then [todo[0]] else []) + Guarded(todo[1..], flags)
  }

  /** The analyzers the seven guarded calls of `main` run, in call order. */
  function Selected(flags: Flags): (run: seq<Analyzer>)
    ensures |run| <= |Pipeline|
  {
    Guarded(Pipeline, flags)
  }

  predicate InPipelineOrder(todo: seq<Analyzer>) {
    forall i, j :: 0 <= i < j < |todo| ==> Rank(todo[i]) < Rank(todo[j])
  }

  lemma {:induction false} GuardedKeepsOrder(todo: seq<Analyzer>, flags: Flags)
    requires InPipelineOrder(todo)
    ensures InPipelineOrder(Guarded(todo, flags))
  {
    if todo != [] {
      var rest := todo[1..];
      assert InPipelineOrder(rest) by {
        forall i, j | 0 <= i < j < |rest| ensures Rank(rest[i]) < Rank(rest[j]) {
          assert rest[i] == todo[i + 1] && rest[j] == todo[j + 1];
        }
      }
      GuardedKeepsOrder(rest, flags);
      var g := Guarded(rest, flags);
      forall k | 0 <= k < |g| ensures Rank(todo[0]) < Rank(g[k]) {
        assert g[k] in g;
        var m :| 0 <= m < |rest| && rest[m] == g[k];
        assert rest[m] == todo[m + 1];
      }
    }
  }

  /** A sequence in pipeline order that holds nothing but `a`, and holds it, is `[a]`. */
  lemma OrderedSingleton(todo: seq<Analyzer>, a: Analyzer)
    requires InPipelineOrder(todo)
    requires a in todo && forall i :: 0 <= i < |todo| ==> todo[i] == a
    ensures todo == [a]
  {
    var n := |todo|;
    assert Rank(todo[0]) <= Rank(todo[n - 1]);
  }

  lemma {:induction false} GuardedAll(todo: seq<Analyzer>, flags: Flags)
    requires RunAll(flags)
    ensures Guarded(todo, flags) == todo
  {
    if todo != [] {
      GuardedAll(todo[1..], flags);
    }
  }

  /** `run_all` holds iff no analyzer flag is set. */
  lemma RunAllIff(flags: Flags)
    ensures RunAll(flags) <==> forall a :: !Flag(flags, a)
  {
    if !RunAll(flags) {
      var a :| a in Pipeline && Flag(flags, a);
    }
  }

  /** An analyzer runs iff `run_all` holds or its own flag is set; the analyzers run in
      pipeline order, so each at most once. */
  lemma SelectedIff(flags: Flags)
    ensures forall a :: a in Selected(flags) <==> RunAll(flags) || Flag(flags, a)
    ensures InPipelineOrder(Selected(flags))
  {
    forall a ensures a in Pipeline {
      assert Pipeline[Rank(a)] == a;
    }
    GuardedKeepsOrder(Pipeline, flags);
  }

  /** With no flag every analyzer runs; with exactly one flag exactly that analyzer runs. */
  lemma SelectedExamples(flags: Flags, a: Analyzer)
    ensures RunAll(flags) ==> Selected(flags) == Pipeline
    ensures Flag(flags, a) && (forall b :: b != a ==> !Flag(flags, b)) ==> Selected(flags) == [a]
  {
    if RunAll(flags) {
      GuardedAll(Pipeline, flags);
    }
    if Flag(flags, a) && (forall b :: b != a ==> !Flag(flags, b)) {
      SelectedIff(flags);
      var sel := Selected(flags);
      assert a in sel;
      forall i | 0 <= i < |sel| ensures sel[i] == a {
        assert Flag(flags, sel[i]);
      }
      OrderedSingleton(sel, a);
    }
  }

  /** What an analyzer adds to the screen. */
  datatype Output =
    | Shape(stats: seq<Core.StatRow>)
    | Nulls(nulls: seq<Core.NullRow>)
    | Types(schema: seq<Core.SchemaRow>)
    | Summary(summary: seq<Core.SummaryRow>)
    | Categories(categories: seq<Core.CategoryRow>)
    | Invoked  // `detect_duplicates` / `detect_outliers`: only the call is modelled

  /** What `main` does, in order: the start message, the reader call, the loader's log
      line, each analyzer's output, and the exception that ends the run early. */
  datatype Event =
    | Started(verbose: bool)
    | Read(format: Loader.Format, path: string)
    | Logged(message: string)
    | Ran(analyzer: Analyzer, output: Output)
    | Raised(fault: Fault)

  function Analyze(a: Analyzer, df: Frames.Frame, threshold: int): Result<Output, Fault> {
    match a
    case BasicStats => Ok(Shape(Core.BasicStats(df)))
    case NullCounts =>
      (match Core.NullReport(df, threshold) case Ok(rows) => Ok(Nulls(rows)) case Err(e) => Err(e))
    case Schema => Ok(Types(Core.SchemaListing(df)))
    case SummaryStats =>
      (match Core.SummaryReport(df) case Ok(rows) => Ok(Summary(rows)) case Err(e) => Err(e))
    case CategoricalInfo =>
      (match Core.CategoricalReport(df) case Ok(rows) => Ok(Categories(rows)) case Err(e) => Err(e))
    case Duplicates => Ok(Invoked)
    case Outliers => Ok(Invoked)
  }

  function EventOf(a: Analyzer, df: Frames.Frame, threshold: int): Event {
    match Analyze(a, df, threshold)
    case Ok(out) => Ran(a, out)
    case Err(e) => Raised(e)
  }

  /** Runs the analyzers in turn; the first exception ends the run. */
  function RunSelected(todo: seq<Analyzer>, df: Frames.Frame, threshold: int): (ev: seq<Event>)
    ensures |ev| <= |todo|
    ensures todo != [] ==> |ev| > 0
  {
    if todo == [] then []
    else
      match Analyze(todo[0], df, threshold)
      case Err(e) => [Raised(e)]
      case Ok(out) => [Ran(todo[0], out)] + RunSelected(todo[1..], df, threshold)
  }

  /** The run follows `todo` in order until the first analyzer that raises, and that
      exception is the last event. */
  lemma {:induction false} RunSelectedShape(todo: seq<Analyzer>, df: Frames.Frame, threshold: int)
    ensures var ev := RunSelected(todo, df, threshold);
      && |ev| <= |todo|
      && (forall i :: 0 <= i < |ev| ==> ev[i] == EventOf(todo[i], df, threshold))
      && (forall i :: 0 <= i < |ev| - 1 ==> ev[i].Ran?)
      && (|ev| < |todo| ==> |ev| > 0 && ev[|ev| - 1].Raised?)
  {
    if todo != [] {
      var ev := RunSelected(todo, df, threshold);
      match Analyze(todo[0], df, threshold)
      case Err(e) =>
        assert ev == [Raised(e)];
      case Ok(out) =>
        RunSelectedShape(todo[1..], df, threshold);
        var rest := RunSelected(todo[1..], df, threshold);
        assert ev == [Ran(todo[0], out)] + rest;
        forall i | 1 <= i < |ev| ensures ev[i] == EventOf(todo[i], df, threshold) {
          assert ev[i] == rest[i - 1];
          assert todo[i] == todo[1..][i - 1];
        }
    }
  }

  /** The analyzers of the `Ran` events of a trace, in order. */
  function Runs(tr: seq<Event>): seq<Analyzer> {
    if tr == [] then []
    else (if tr[0].Ran? then [tr[0].analyzer] else []) + Runs(tr[1..])
  }

  predicate NoRaise(tr: seq<Event>) {
    forall i :: 0 <= i < |tr| ==> !tr[i].Raised?
  }

  /** The analyzers that ran are a prefix of `todo`: all of it unless one raised. */
  lemma {:induction false} RunsOfRunSelected(todo: seq<Analyzer>, df: Frames.Frame, threshold: int)
    ensures Runs(RunSelected(todo, df, threshold)) <= todo
    ensures NoRaise(RunSelected(todo, df, threshold)) ==> Runs(RunSelected(todo, df, threshold)) == todo
  {
    if todo != [] {
      RunsOfRunSelected(todo[1..], df, threshold);
      var ev := RunSelected(todo, df, threshold);
      var rest := RunSelected(todo[1..], df, threshold);
      if Analyze(todo[0], df, threshold).Ok? {
        assert ev[1..] == rest;
        assert NoRaise(ev) ==> NoRaise(rest) by {
          if NoRaise(ev) {
            forall i | 0 <= i < |rest| ensures !rest[i].Raised? { assert rest[i] == ev[i + 1]; }
          }
        }
        assert todo == [todo[0]] + todo[1..];
      } else {
        assert ev == [Raised(Analyze(todo[0], df, threshold).error)];
        assert Runs(ev) == [] + Runs([]);
      }
    }
  }

  /** The reader call and the log lines of `load_file`. */
  function LoadEvents(path: string, loaded: Loader.Loaded): (ev: seq<Event>)
    ensures |ev| == 1 + |loaded.log|
    ensures ev[0] == Read(loaded.format, path)
    ensures forall i :: 1 <= i < |ev| ==> ev[i] == Logged(loaded.log[i - 1])
  {
    [Read(loaded.format, path)] + seq(|loaded.log|, i requires 0 <= i < |loaded.log| => Logged(loaded.log[i]))
  }

  /** `main(...)`: the events the program produces; `read` stands for the Polars readers. */
  function Main(args: Args, read: (Loader.Format, string) -> Frames.Frame): (tr: seq<Event>)
    ensures |tr| >= 2 && tr[0] == Started(args.verbose)
  {
    [Started(args.verbose)]
    + match Loader.LoadFile(args.input, args.verbose, read)
      case Err(e) => [Raised(e)]
      case Ok(loaded) =>
        LoadEvents(args.input, loaded) + RunSelected(Selected(args.flags), loaded.frame, args.nullThreshold)
  }

  lemma {:induction false} RunsAppend(a: seq<Event>, b: seq<Event>)
    ensures Runs(a + b) == Runs(a) + Runs(b)
  {
    if a != [] {
      assert (a + b)[1..] == a[1..] + b;
      RunsAppend(a[1..], b);
    } else {
      assert a + b == b;
    }
  }

  lemma {:induction false} RunsNone(tr: seq<Event>)
    requires forall i :: 0 <= i < |tr| ==> !tr[i].Ran?
    ensures Runs(tr) == []
  {
    if tr != [] {
      RunsNone(tr[1..]);
    }
  }

  /** The part of the trace before any analyzer: the start message, the reader call, the log. */
  function Prologue(args: Args, loaded: Loader.Loaded): seq<Event> {
    [Started(args.verbose)] + LoadEvents(args.input, loaded)
  }

  /** A run whose load succeeds is the start message, the load events and the analyzers. */
  lemma MainOfLoaded(args: Args, read: (Loader.Format, string) -> Frames.Frame, loaded: Loader.Loaded)
    requires Loader.LoadFile(args.input, args.verbose, read) == Ok(loaded)
    ensures Main(args, read) == Prologue(args, loaded) + RunSelected(Selected(args.flags), loaded.frame, args.nullThreshold)
  {
    var runs := RunSelected(Selected(args.flags), loaded.frame, args.nullThreshold);
    var load := LoadEvents(args.input, loaded);
    var start: seq<Event> := [Started(args.verbose)];
    assert Main(args, read) == start + (load + runs);
    assert start + (load + runs) == (start + load) + runs;
  }

  lemma MainSplits(args: Args, read: (Loader.Format, string) -> Frames.Frame)
    requires Loader.ChooseReader(args.input).Ok?
    ensures var loaded := Loader.LoadFile(args.input, args.verbose, read).value;
      && Main(args, read) == Prologue(args, loaded) + RunSelected(Selected(args.flags), loaded.frame, args.nullThreshold)
      && loaded.frame == read(Loader.ChooseReader(args.input).value, args.input)
      && loaded.format == Loader.ChooseReader(args.input).value
  {
    var loaded := Loader.LoadFile(args.input, args.verbose, read).value;
    MainOfLoaded(args, read, loaded);
  }

  /** The start message comes first; an unsupported suffix raises before any analyzer runs;
      otherwise the one reader call comes next and precedes every analyzer. */
  lemma MainOrder(args: Args, read: (Loader.Format, string) -> Frames.Frame)
    ensures var tr := Main(args, read);
      && |tr| >= 2
      && tr[0] == Started(args.verbose)
      && (forall i :: 1 <= i < |tr| ==> !tr[i].Started?)
      && (Loader.ChooseReader(args.input).Err? ==>
            tr == [Started(args.verbose), Raised(Loader.ChooseReader(args.input).error)])
      && (Loader.ChooseReader(args.input).Ok? ==>
            && tr[1] == Read(Loader.ChooseReader(args.input).value, args.input)
            && (forall i :: 2 <= i < |tr| ==> !tr[i].Read?)
            && (forall i :: 0 <= i < 2 ==> !tr[i].Ran?))
  {
    if Loader.ChooseReader(args.input).Ok? {
      var tr := Main(args, read);
      var loaded := Loader.LoadFile(args.input, args.verbose, read).value;
      var pre := Prologue(args, loaded);
      var runs := RunSelected(Selected(args.flags), loaded.frame, args.nullThreshold);
      MainSplits(args, read);
      RunSelectedShape(Selected(args.flags), loaded.frame, args.nullThreshold);
      forall i | 1 <= i < |tr| ensures !tr[i].Started? && (i >= 2 ==> !tr[i].Read?) {
        if i < |pre| {
          assert tr[i] == pre[i] == LoadEvents(args.input, loaded)[i - 1];
        } else {
          assert tr[i] == runs[i - |pre|];
        }
      }
    }
  }

  /** The analyzers that run are the selected ones, in order, up to the first exception:
      all of them when nothing raises. */
  lemma MainRunsSelected(args: Args, read: (Loader.Format, string) -> Frames.Frame)
    ensures Runs(Main(args, read)) <= Selected(args.flags)
    ensures Loader.ChooseReader(args.input).Ok? && NoRaise(Main(args, read)) ==>
      Runs(Main(args, read)) == Selected(args.flags)
  {
    var tr := Main(args, read);
    if Loader.ChooseReader(args.input).Ok? {
      var loaded := Loader.LoadFile(args.input, args.verbose, read).value;
      var pre := Prologue(args, loaded);
      var runs := RunSelected(Selected(args.flags), loaded.frame, args.nullThreshold);
      MainSplits(args, read);
      RunsAppend(pre, runs);
      RunsOfRunSelected(Selected(args.flags), loaded.frame, args.nullThreshold);
      assert Runs(pre) == [] by {
        forall i | 0 <= i < |pre| ensures !pre[i].Ran? {
          if i > 0 { assert pre[i] == LoadEvents(args.input, loaded)[i - 1]; }
        }
        RunsNone(pre);
      }
      if NoRaise(tr) {
        forall i | 0 <= i < |runs| ensures !runs[i].Raised? { assert runs[i] == tr[|pre| + i]; }
      }
    } else {
      assert Runs(tr) == Runs([Raised(Loader.ChooseReader(args.input).error)]) == [];
    }
  }

  /** The null analyzer, whenever it runs, reports on the loaded frame with the
      `--null_threshold` value. */
  lemma MainNullThreshold(args: Args, read: (Loader.Format, string) -> Frames.Frame)
    ensures var tr := Main(args, read);
      forall i :: 0 <= i < |tr| && tr[i].Ran? && tr[i].analyzer == NullCounts ==>
        && Loader.ChooseReader(args.input).Ok?
        && var df := read(Loader.ChooseReader(args.input).value, args.input);
           tr[i].output.Nulls? && Core.NullReport(df, args.nullThreshold) == Ok(tr[i].output.nulls)
  {
    var tr := Main(args, read);
    if Loader.ChooseReader(args.input).Ok? {
      var loaded := Loader.LoadFile(args.input, args.verbose, read).value;
      var pre := Prologue(args, loaded);
      var todo := Selected(args.flags);
      var runs := RunSelected(todo, loaded.frame, args.nullThreshold);
      MainSplits(args, read);
      RunSelectedShape(todo, loaded.frame, args.nullThreshold);
      forall i | 0 <= i < |tr| && tr[i].Ran? && tr[i].analyzer == NullCounts
        ensures tr[i].output.Nulls? && Core.NullReport(loaded.frame, args.nullThreshold) == Ok(tr[i].output.nulls)
      {
        assert i >= |pre|;
        assert tr[i] == runs[i - |pre|] == EventOf(todo[i - |pre|], loaded.frame, args.nullThreshold);
      }
    }
  }

  /** Without `--null_threshold` on the command line, the null analyzer, whenever it runs,
      reports on the loaded frame with threshold 10. */
  lemma DefaultNullThresholdUsed(input: string, verbose: bool, flags: Flags, read: (Loader.Format, string) -> Frames.Frame)
    ensures var tr := Main(CommandArgs(input, verbose, None, flags), read);
      forall i :: 0 <= i < |tr| && tr[i].Ran? && tr[i].analyzer == NullCounts ==>
        && Loader.ChooseReader(input).Ok?
        && var df := read(Loader.ChooseReader(input).value, input);
           tr[i].output.Nulls? && Core.NullReport(df, 10) == Ok(tr[i].output.nulls)
  {
    MainNullThreshold(CommandArgs(input, verbose, None, flags), read);
  }
}
