/**
 * The batch driver of `entrypoint.py`: it splits its three argument blocks
 * into lines, pairs source and output files position by position, runs
 * `typst compile` once for every pair whose source is not blank, records
 * each source's outcome in an insertion-ordered dict, reports one summary
 * line per source and exits with status 1 when some recorded outcome is a
 * failure.
 *
 * The external `typst` process is an oracle: the exit status each
 * invocation returns is given as a function of how many compile
 * invocations came before it and of its argument vector.
 */
module Entrypoint {
  import opened PyText
  import opened PyDict

  datatype Option<T> = None | Some(value: T)

  /** The exit status of the `n`-th compile invocation (from 0) with argument vector `argv`. */
  type Oracle = (nat, seq<string>) -> int

  // ---------------------------------------------------------------------------
  // compile(in_file, out_file, options)

  /** The argument vector `["typst"] + ["compile", in_file] + options + [out_file]`. */
  function Command(inFile: string, outFile: string, options: seq<string>): (argv: seq<string>)
    ensures |argv| == |options| + 4
    ensures argv[0] == "typst" && argv[1] == "compile" && argv[2] == inFile
    ensures argv[3..|argv| - 1] == options
    ensures argv[|argv| - 1] == outFile
  {
    ["typst"] + ["compile", inFile] + options + [outFile]
  }

  /** What a compile command asks for: a source, a target and the options between them. */
  datatype Invocation = Invocation(input: string, output: string, options: seq<string>)

  /** Reads an argument vector as a compile command, if it is one. */
  function ParseCommand(argv: seq<string>): Option<Invocation> {
    if |argv| >= 4 && argv[0] == "typst" && argv[1] == "compile"
    then Some(Invocation(argv[2], argv[|argv| - 1], argv[3..|argv| - 1]))
    else None
  }

  /** A command can be read back as the source, target and options it was built from. */
  lemma CommandRoundTrip(inFile: string, outFile: string, options: seq<string>)
    ensures ParseCommand(Command(inFile, outFile, options)) == Some(Invocation(inFile, outFile, options))
  {
  }

  /** Every argument vector that reads as a compile command is the command built from what it reads as. */
  lemma ParseCommandRoundTrip(argv: seq<string>)
    requires ParseCommand(argv).Some?
    ensures var inv := ParseCommand(argv).value;
      Command(inv.input, inv.output, inv.options) == argv
  {
    var inv := ParseCommand(argv).value;
    assert argv == argv[..3] + inv.options + [inv.output];
  }

  /** Different source, target or options give different commands. */
  lemma CommandInjective(in1: string, out1: string, opts1: seq<string>, in2: string, out2: string, opts2: seq<string>)
    requires Command(in1, out1, opts1) == Command(in2, out2, opts2)
    ensures in1 == in2 && out1 == out2 && opts1 == opts2
  {
    CommandRoundTrip(in1, out1, opts1);
    CommandRoundTrip(in2, out2, opts2);
  }

  /** What `subprocess.run` returns, as far as `compile` looks at it. */
  datatype CompletedProcess = CompletedProcess(args: seq<string>, returncode: int)

  datatype CalledProcessError = CalledProcessError(returncode: int, cmd: seq<string>)

  datatype Outcome<E> = Pass | Fail(error: E)

  /** `CompletedProcess.check_returncode()`: raises `CalledProcessError` unless the status is 0. */
  function CheckReturncode(p: CompletedProcess): (o: Outcome<CalledProcessError>)
    ensures o.Fail? <==> p.returncode != 0
    ensures o.Fail? ==> o.error.returncode == p.returncode && o.error.cmd == p.args
  {
    if p.returncode != 0 then Fail(CalledProcessError(p.returncode, p.args)) else Pass
  }

  /**
   * `compile(in_file, out_file, options)` as the `n`-th compile invocation:
   * it runs the command and turns the exception for a non-zero status into `false`.
   */
  function Compile(inFile: string, outFile: string, options: seq<string>, run: Oracle, n: nat): (ok: bool)
    ensures ok <==> run(n, Command(inFile, outFile, options)) == 0
  {
    var command := Command(inFile, outFile, options);
    var result := CompletedProcess(command, run(n, command));
    match CheckReturncode(result)
    case Fail(_) => false
    case Pass => true
  }

  // ---------------------------------------------------------------------------
  // Pairing and filtering

  function Min(a: nat, b: nat): nat {
    if a <= b then a else b
  }

  /** Python's `zip(xs, ys)`: pairs by position, as many as the shorter sequence has. */
  function Zip<A, B>(xs: seq<A>, ys: seq<B>): (ps: seq<(A, B)>)
    ensures |ps| == Min(|xs|, |ys|)
    ensures forall i :: 0 <= i < |ps| ==> ps[i] == (xs[i], ys[i])
  {
    seq(Min(|xs|, |ys|), i requires 0 <= i < Min(|xs|, |ys|) => (xs[i], ys[i]))
  }

  /** A source and the output it is compiled to, both stripped. */
  datatype Job = Job(input: string, output: string)

  /** The zipped pairs with both members stripped, as the loop body sees them. */
  function Pairs(xs: seq<string>, ys: seq<string>): (js: seq<Job>)
    ensures |js| == Min(|xs|, |ys|)
    ensures forall i :: 0 <= i < |js| ==> js[i] == Job(Strip(xs[i]), Strip(ys[i]))
  {
    var ps := Zip(xs, ys);
    seq(|ps|, i requires 0 <= i < |ps| => Job(Strip(ps[i].0), Strip(ps[i].1)))
  }

  /** The positions of `js` the loop compiles, in increasing order. */
  function Kept(js: seq<Job>): (r: seq<nat>)
    ensures forall t :: 0 <= t < |r| ==> r[t] < |js|
  {
    if js == [] then []
    else
      var init := Kept(js[..|js| - 1]);
      if js[|js| - 1].input == "" then init else init + [|js| - 1]
  }

  /** The kept positions are exactly those with a non-empty source, each listed once and in increasing order. */
  lemma {:induction false} KeptExactly(js: seq<Job>)
    ensures forall t :: 0 <= t < |Kept(js)| ==> js[Kept(js)[t]].input != ""
    ensures forall t, u :: 0 <= t < u < |Kept(js)| ==> Kept(js)[t] < Kept(js)[u]
    ensures forall i :: 0 <= i < |js| && js[i].input != "" ==> i in Kept(js)
  {
    if js != [] {
      var init := js[..|js| - 1];
      var r0 := Kept(init);
      KeptExactly(init);
      forall t | 0 <= t < |r0| ensures js[r0[t]] == init[r0[t]] {}
      forall i | 0 <= i < |js| - 1 && js[i].input != "" ensures i in Kept(js) {
        assert init[i] == js[i];
      }
    }
  }

  /** The `if in_file == "": continue` filter: the jobs with a non-empty source, in order. */
  function NonBlank(js: seq<Job>): (r: seq<Job>)
    ensures |r| <= |js|
  {
    if js == [] then []
    else
      var last := js[|js| - 1];
      NonBlank(js[..|js| - 1]) + (if last.input == "" then [] else [last])
  }

  /** The `t`-th job kept is the job at the `t`-th kept position. */
  lemma {:induction false} NonBlankAtKept(js: seq<Job>)
    ensures |NonBlank(js)| == |Kept(js)|
    ensures forall t :: 0 <= t < |Kept(js)| ==> NonBlank(js)[t] == js[Kept(js)[t]]
  {
    if js != [] {
      var init := js[..|js| - 1];
      var r0, n0 := Kept(init), NonBlank(init);
      NonBlankAtKept(init);
      forall t | 0 <= t < |r0| ensures n0[t] == js[r0[t]] {
        assert js[r0[t]] == init[r0[t]];
      }
    }
  }

  /** Filtering a prefix one job longer adds that job, unless its source is empty. */
  lemma NonBlankAppend(js: seq<Job>, i: nat)
    requires i < |js|
    ensures NonBlank(js[..i + 1]) == NonBlank(js[..i]) + (if js[i].input == "" then [] else [js[i]])
  {
    assert js[..i + 1][..i] == js[..i];
  }

  /** When no source is blank, the filter keeps every job. */
  lemma {:induction false} NonBlankNoBlank(js: seq<Job>)
    requires forall i :: 0 <= i < |js| ==> js[i].input != ""
    ensures NonBlank(js) == js
  {
    if js != [] {
      NonBlankNoBlank(js[..|js| - 1]);
    }
  }

  /** The jobs the loop compiles for source lines `xs` and output lines `ys`. */
  function Jobs(xs: seq<string>, ys: seq<string>): seq<Job> {
    NonBlank(Pairs(xs, ys))
  }

  /** The commands of `js`, in order, all with the same options. */
  function Invocations(js: seq<Job>, options: seq<string>): (cs: seq<seq<string>>)
    ensures |cs| == |js|
    ensures forall t :: 0 <= t < |js| ==> cs[t] == Command(js[t].input, js[t].output, options)
  {
    seq(|js|, t requires 0 <= t < |js| => Command(js[t].input, js[t].output, options))
  }

  /** What the loop assigns into `success`: the `t`-th job's source and the outcome of invocation `t`. */
  function Entries(js: seq<Job>, options: seq<string>, run: Oracle): (es: seq<(string, bool)>)
    ensures |es| == |js|
  {
    seq(|js|, t requires 0 <= t < |js| =>
      (js[t].input, Compile(js[t].input, js[t].output, options, run, t)))
  }

  lemma InvocationsAppend(js: seq<Job>, j: Job, options: seq<string>)
    ensures Invocations(js + [j], options) == Invocations(js, options) + [Command(j.input, j.output, options)]
  {
  }

  lemma EntriesAppend(js: seq<Job>, j: Job, options: seq<string>, run: Oracle)
    ensures Entries(js + [j], options, run)
         == Entries(js, options, run) + [(j.input, Compile(j.input, j.output, options, run, |js|))]
  {
  }

  /** The commands the loop runs for source lines `xs` and output lines `ys`. */
  function Issued(xs: seq<string>, ys: seq<string>, options: seq<string>): (cs: seq<seq<string>>)
    ensures forall t :: 0 <= t < |cs| ==> |cs[t]| == |options| + 4
  {
    Invocations(Jobs(xs, ys), options)
  }

  /** The `success` dict the loop leaves for source lines `xs` and output lines `ys`. */
  function Results(xs: seq<string>, ys: seq<string>, options: seq<string>, run: Oracle): (d: Dict<string, bool>)
    ensures d.Valid()
  {
    FromEntries(Entries(Jobs(xs, ys), options, run))
  }

  /**
   * The `for` loop over `zip(source_files, output_files)`: strips both
   * members of each pair, skips a pair whose source is blank, and otherwise
   * stores the outcome of compiling it under the stripped source.
   */
  method RecordOutcomes(sources: seq<string>, outputs: seq<string>, options: seq<string>, run: Oracle)
    returns (success: Dict<string, bool>, issued: seq<seq<string>>)
    ensures success == Results(sources, outputs, options, run)
    ensures issued == Issued(sources, outputs, options)
  {
    var pairs := Zip(sources, outputs);
    var keys: seq<string> := [];
    var values: map<string, bool> := map[];
    issued := [];
    ghost var stripped := Pairs(sources, outputs);
    ghost var jobs: seq<Job> := [];
    for i := 0 to |pairs|
      invariant jobs == NonBlank(stripped[..i])
      invariant issued == Invocations(jobs, options)
      invariant Dict(keys, values) == FromEntries(Entries(jobs, options, run))
    {
      var inFile := Strip(pairs[i].0);
      var outFile := Strip(pairs[i].1);
      NonBlankAppend(stripped, i);
      if inFile != "" {
        var ok := Compile(inFile, outFile, options, run, |issued|);
        EntriesAppend(jobs, Job(inFile, outFile), options, run);
        InvocationsAppend(jobs, Job(inFile, outFile), options);
        FromEntriesAppend(Entries(jobs, options, run), inFile, ok);
        jobs := jobs + [Job(inFile, outFile)];
        issued := issued + [Command(inFile, outFile, options)];
        if inFile !in values {
          keys := keys + [inFile];
        }
        values := values[inFile := ok];
      }
    }
    assert stripped[..|pairs|] == stripped;
    success := Dict(keys, values);
  }

  // ---------------------------------------------------------------------------
  // What the loop does, stated on the source and output lines

  /**
   * One command per source line that is not blank, among the first
   * `min(|xs|, |ys|)` lines and in their order; each built from the stripped
   * source and the stripped output of that same line and the options as given.
   */
  lemma IssuedExactly(xs: seq<string>, ys: seq<string>, options: seq<string>)
    ensures var kept, cs := Kept(Pairs(xs, ys)), Issued(xs, ys, options);
      && |cs| == |kept|
      && (forall t :: 0 <= t < |kept| ==>
            && kept[t] < Min(|xs|, |ys|)
            && Strip(xs[kept[t]]) != ""
            && cs[t] == Command(Strip(xs[kept[t]]), Strip(ys[kept[t]]), options))
      && (forall t, u :: 0 <= t < u < |kept| ==> kept[t] < kept[u])
      && (forall i :: 0 <= i < Min(|xs|, |ys|) && Strip(xs[i]) != "" ==> i in kept)
  {
    var js := Pairs(xs, ys);
    NonBlankAtKept(js);
    KeptExactly(js);
    assert forall i :: 0 <= i < Min(|xs|, |ys|) ==> js[i].input == Strip(xs[i]);
  }

  /** Lines beyond the end of the shorter list play no part. */
  lemma TrailingLinesIgnored(xs: seq<string>, ys: seq<string>, options: seq<string>, run: Oracle)
    ensures var n := Min(|xs|, |ys|);
      && Issued(xs, ys, options) == Issued(xs[..n], ys[..n], options)
      && Results(xs, ys, options, run) == Results(xs[..n], ys[..n], options, run)
  {
    var n := Min(|xs|, |ys|);
    assert Pairs(xs, ys) == Pairs(xs[..n], ys[..n]);
  }

  /** The stripped sources of a sequence of jobs. */
  function Sources(js: seq<Job>): (ss: seq<string>)
    ensures |ss| == |js|
    ensures forall i :: 0 <= i < |js| ==> ss[i] == js[i].input
  {
    seq(|js|, i requires 0 <= i < |js| => js[i].input)
  }

  /** The keys the loop assigns are the sources of the jobs, in order. */
  lemma EntryKeys(js: seq<Job>, options: seq<string>, run: Oracle)
    ensures Firsts(Entries(js, options, run)) == Sources(js)
  {
  }

  /** The sources the loop compiles are the sources at the kept positions. */
  lemma KeptSources(js: seq<Job>)
    ensures |Sources(NonBlank(js))| == |Kept(js)|
    ensures forall t :: 0 <= t < |Kept(js)| ==> Sources(NonBlank(js))[t] == js[Kept(js)[t]].input
  {
    NonBlankAtKept(js);
  }

  /** The filter keeps every non-empty source and no other. */
  lemma {:induction false} NonBlankSources(js: seq<Job>)
    ensures forall k :: k in Sources(NonBlank(js)) <==> k != "" && k in Sources(js)
  {
    if js != [] {
      var init, last := js[..|js| - 1], js[|js| - 1];
      NonBlankSources(init);
      assert Sources(js) == Sources(init) + [last.input];
      if last.input == "" {
        assert NonBlank(js) == NonBlank(init);
      } else {
        assert NonBlank(js) == NonBlank(init) + [last];
        assert Sources(NonBlank(js)) == Sources(NonBlank(init)) + [last.input];
      }
    }
  }

  /** The dict's keys are exactly the distinct non-empty stripped sources among the zipped lines. */
  lemma ResultKeys(xs: seq<string>, ys: seq<string>, options: seq<string>, run: Oracle)
    ensures forall k :: k in Results(xs, ys, options, run).values <==>
      k != "" && exists i :: 0 <= i < Min(|xs|, |ys|) && Strip(xs[i]) == k
  {
    var js := Pairs(xs, ys);
    var es := Entries(NonBlank(js), options, run);
    assert Results(xs, ys, options, run) == FromEntries(es);
    FromEntriesKeys(es);
    EntryKeys(NonBlank(js), options, run);
    NonBlankSources(js);
    var ss := Sources(js);
    forall k | k in ss ensures exists i :: 0 <= i < Min(|xs|, |ys|) && Strip(xs[i]) == k {
      var i :| 0 <= i < |ss| && ss[i] == k;
      assert js[i].input == Strip(xs[i]);
    }
    forall k, i | 0 <= i < Min(|xs|, |ys|) && Strip(xs[i]) == k ensures k in ss {
      assert ss[i] == js[i].input == k;
    }
  }

  /** A compiled source first appears among the jobs at the kept position of its first compilation. */
  lemma FirstSourcePosition(js: seq<Job>, k: string)
    requires k in Sources(NonBlank(js))
    ensures var kept, fs := Kept(js), Sources(NonBlank(js));
      FirstIndex(fs, k) < |kept| && FirstIndex(Sources(js), k) == kept[FirstIndex(fs, k)]
  {
    var kept, fs, ss := Kept(js), Sources(NonBlank(js)), Sources(js);
    KeptSources(js);
    NonBlankSources(js);
    var t := FirstIndex(fs, k);
    assert ss[kept[t]] == k;
    NoEarlierSource(js, t, k);
  }

  /** A source that no kept job before the `t`-th has occurs nowhere before the `t`-th kept position. */
  lemma NoEarlierSource(js: seq<Job>, t: nat, k: string)
    requires t < |Kept(js)| && k != ""
    requires forall u :: 0 <= u < t ==> js[Kept(js)[u]].input != k
    ensures forall j :: 0 <= j < Kept(js)[t] ==> js[j].input != k
  {
    var kept := Kept(js);
    KeptExactly(js);
    forall j | 0 <= j < kept[t] && js[j].input != "" ensures js[j].input != k {
      var u :| 0 <= u < |kept| && kept[u] == j;
      assert u < t;
    }
  }

  /** The dict's keys are listed in the order in which they first appear among the zipped lines. */
  lemma ResultOrder(xs: seq<string>, ys: seq<string>, options: seq<string>, run: Oracle)
    ensures InFirstOccurrenceOrder(Results(xs, ys, options, run).keys, Sources(Pairs(xs, ys)))
  {
    var js := Pairs(xs, ys);
    var es := Entries(NonBlank(js), options, run);
    var d := FromEntries(es);
    assert Results(xs, ys, options, run) == d;
    FromEntriesOrder(es);
    FromEntriesKeys(es);
    EntryKeys(NonBlank(js), options, run);
    KeptExactly(js);
    forall a, b | 0 <= a < b < |d.keys|
      ensures FirstIndex(Sources(js), d.keys[a]) < FirstIndex(Sources(js), d.keys[b])
    {
      assert d.keys[a] in d.values && d.keys[b] in d.values;
      FirstSourcePosition(js, d.keys[a]);
      FirstSourcePosition(js, d.keys[b]);
    }
  }

  /** A source run again overwrites its value: each key holds the outcome of the last command for it. */
  lemma ResultLastWins(xs: seq<string>, ys: seq<string>, options: seq<string>, run: Oracle)
    ensures var cs, d := Issued(xs, ys, options), Results(xs, ys, options, run);
      forall t :: 0 <= t < |cs| && (forall u :: t < u < |cs| ==> cs[u][2] != cs[t][2]) ==>
        cs[t][2] in d.values && d.values[cs[t][2]] == (run(t, cs[t]) == 0)
  {
    var js := Jobs(xs, ys);
    var es, cs := Entries(js, options, run), Invocations(js, options);
    assert Issued(xs, ys, options) == cs && Results(xs, ys, options, run) == FromEntries(es);
    forall t | 0 <= t < |cs| && (forall u :: t < u < |cs| ==> cs[u][2] != cs[t][2])
      ensures cs[t][2] in FromEntries(es).values && FromEntries(es).values[cs[t][2]] == (run(t, cs[t]) == 0)
    {
      assert cs[t] == Command(js[t].input, js[t].output, options);
      forall u | t < u < |es| ensures es[u].0 != es[t].0 {
        assert cs[u] == Command(js[u].input, js[u].output, options);
      }
      FromEntriesLastWinsAt(es, t);
    }
  }

  /** Each value in the dict built from the entries of `js` comes from one of its commands. */
  lemma EntryValuesFromInvocations(js: seq<Job>, options: seq<string>, run: Oracle)
    ensures forall k :: k in FromEntries(Entries(js, options, run)).values ==>
      exists t :: 0 <= t < |js| && Invocations(js, options)[t][2] == k
        && FromEntries(Entries(js, options, run)).values[k] == (run(t, Invocations(js, options)[t]) == 0)
  {
    var es, cs := Entries(js, options, run), Invocations(js, options);
    var d := FromEntries(es);
    FromEntriesValues(es);
    forall k | k in d.values
      ensures exists t :: 0 <= t < |js| && cs[t][2] == k && d.values[k] == (run(t, cs[t]) == 0)
    {
      var t :| 0 <= t < |es| && es[t] == (k, d.values[k]);
      assert es[t].0 == cs[t][2] && es[t].1 == (run(t, cs[t]) == 0);
    }
  }

  /** Every recorded outcome is the outcome of one of the commands run. */
  lemma ResultValuesFromCommands(xs: seq<string>, ys: seq<string>, options: seq<string>, run: Oracle)
    ensures forall k :: k in Results(xs, ys, options, run).values ==>
      exists t :: 0 <= t < |Issued(xs, ys, options)| && Issued(xs, ys, options)[t][2] == k
        && Results(xs, ys, options, run).values[k] == (run(t, Issued(xs, ys, options)[t]) == 0)
  {
    var js := Jobs(xs, ys);
    EntryValuesFromInvocations(js, options, run);
    assert Results(xs, ys, options, run) == FromEntries(Entries(js, options, run));
    assert Issued(xs, ys, options) == Invocations(js, options);
  }
  // ---------------------------------------------------------------------------
  // Summary and exit decision

  /** The mark the summary shows for an outcome. */
  function Symbol(ok: bool): string {
    if ok then "✔" else "❌"
  }

  /** One summary line, `<path>: <symbol>`. */
  datatype SummaryLine = SummaryLine(path: string, symbol: string)

  /** The loop over `success.items()`: one line per key, in insertion order. */
  method Summarize(success: Dict<string, bool>) returns (lines: seq<SummaryLine>)
    requires success.Valid()
    ensures |lines| == |success.keys|
    ensures forall i :: 0 <= i < |lines| ==>
      lines[i] == SummaryLine(success.keys[i], Symbol(success.values[success.keys[i]]))
  {
    var items := success.Items();
    lines := [];
    for i := 0 to |items|
      invariant |lines| == i
      invariant forall j :: 0 <= j < i ==> lines[j] == SummaryLine(items[j].0, Symbol(items[j].1))
    {
      var (inFile, status) := items[i];
      lines := lines + [SummaryLine(inFile, Symbol(status))];
    }
  }

  /** `sys.exit(1)` when `not all(success.values())`, otherwise the normal exit status 0. */
  function ExitStatus(success: Dict<string, bool>): (code: int)
    ensures code == 0 || code == 1
    ensures code == 1 <==> exists k :: k in success.values && !success.values[k]
  {
    if false in success.values.Values then 1 else 0
  }

  /** The run exits with 1 exactly when the summary shows a `❌`. */
  lemma SummaryShowsFailure(success: Dict<string, bool>, lines: seq<SummaryLine>)
    requires success.Valid()
    requires |lines| == |success.keys|
    requires forall i :: 0 <= i < |lines| ==>
      lines[i] == SummaryLine(success.keys[i], Symbol(success.values[success.keys[i]]))
    ensures ExitStatus(success) == 1 <==> exists i :: 0 <= i < |lines| && lines[i].symbol == "❌"
  {
    if ExitStatus(success) == 1 {
      var k :| k in success.values && !success.values[k];
      var i :| 0 <= i < |success.keys| && success.keys[i] == k;
      assert lines[i].symbol == "❌";
    }
    assert "✔" != "❌";
  }

  /** When every command succeeds, the run exits with 0; this includes running none. */
  lemma ExitZeroWhenAllSucceed(xs: seq<string>, ys: seq<string>, options: seq<string>, run: Oracle)
    requires var cs := Issued(xs, ys, options); forall t :: 0 <= t < |cs| ==> run(t, cs[t]) == 0
    ensures ExitStatus(Results(xs, ys, options, run)) == 0
  {
    ResultValuesFromCommands(xs, ys, options, run);
  }

  /** Exit status 1 is always caused by a command that failed. */
  lemma ExitOneOnlyAfterFailure(xs: seq<string>, ys: seq<string>, options: seq<string>, run: Oracle)
    requires ExitStatus(Results(xs, ys, options, run)) == 1
    ensures var cs := Issued(xs, ys, options); exists t :: 0 <= t < |cs| && run(t, cs[t]) != 0
  {
    ResultValuesFromCommands(xs, ys, options, run);
  }

  /** When no source is compiled twice, the run exits with 1 exactly when some command failed. */
  lemma ExitOneIffFailureWhenSourcesDistinct(xs: seq<string>, ys: seq<string>, options: seq<string>, run: Oracle)
    requires var cs := Issued(xs, ys, options); forall t, u :: 0 <= t < u < |cs| ==> cs[t][2] != cs[u][2]
    ensures var cs := Issued(xs, ys, options);
      ExitStatus(Results(xs, ys, options, run)) == 1 <==> exists t :: 0 <= t < |cs| && run(t, cs[t]) != 0
  {
    ResultValuesFromCommands(xs, ys, options, run);
    ResultLastWins(xs, ys, options, run);
  }

  /** An empty output block forms no pairs: nothing is compiled and the run exits with 0. */
  lemma EmptyOutputBlockRunsNothing(sourceBlock: string, optionBlock: string, run: Oracle)
    ensures Issued(SplitLines(sourceBlock), SplitLines(""), SplitLines(optionBlock)) == []
    ensures Results(SplitLines(sourceBlock), SplitLines(""), SplitLines(optionBlock), run).keys == []
    ensures ExitStatus(Results(SplitLines(sourceBlock), SplitLines(""), SplitLines(optionBlock), run)) == 0
  {
    var xs, ys := SplitLines(sourceBlock), SplitLines("");
    assert |Pairs(xs, ys)| == 0;
  }

  /**
   * A failure can be hidden: when source `a` is listed twice and only its
   * first compilation fails, the dict keeps the later success and the run
   * exits with 0 although a command failed.
   */
  lemma LaterSuccessHidesFailure(a: string, b: string, c: string, options: seq<string>, run: Oracle)
    requires a != "" && Strip(a) == a && Strip(b) == b && Strip(c) == c
    requires run(0, Command(a, b, options)) != 0
    requires run(1, Command(a, c, options)) == 0
    ensures Issued([a, a], [b, c], options) == [Command(a, b, options), Command(a, c, options)]
    ensures ExitStatus(Results([a, a], [b, c], options, run)) == 0
  {
    var js := [Job(a, b), Job(a, c)];
    RepeatedSourceJobs(a, b, c);
    var es := Entries(js, options, run);
    assert es[0] == (a, false);
    assert es[1] == (a, true);
    assert es == [(a, false), (a, true)];
    ReassignedKey(a, false, true);
  }

  /** The jobs for a source listed twice: both pairs, already stripped. */
  lemma RepeatedSourceJobs(a: string, b: string, c: string)
    requires a != "" && Strip(a) == a && Strip(b) == b && Strip(c) == c
    ensures Jobs([a, a], [b, c]) == [Job(a, b), Job(a, c)]
  {
    var js := Pairs([a, a], [b, c]);
    assert js == [Job(a, b), Job(a, c)];
    NonBlankNoBlank(js);
  }

  // ---------------------------------------------------------------------------
  // main()

  /**
   * `main()` from the splitting of its three arguments on: compiles the
   * pairs, reports the summary and decides the exit status. `issued` is the
   * sequence of commands passed to the compiler, in order.
   */
  method Run(sourceBlock: string, outputBlock: string, optionBlock: string, run: Oracle)
    returns (summary: seq<SummaryLine>, code: int, issued: seq<seq<string>>)
    ensures var xs, ys, options := SplitLines(sourceBlock), SplitLines(outputBlock), SplitLines(optionBlock);
      var d := Results(xs, ys, options, run);
      && issued == Issued(xs, ys, options)
      && |summary| == |d.keys|
      && (forall i :: 0 <= i < |summary| ==> summary[i] == SummaryLine(d.keys[i], Symbol(d.values[d.keys[i]])))
      && code == ExitStatus(d)
    ensures code == 1 <==> exists i :: 0 <= i < |summary| && summary[i].symbol == "❌"
  {
    var sourceFiles := SplitLines(sourceBlock);
    var outputFiles := SplitLines(outputBlock);
    var options := SplitLines(optionBlock);
    var success;
    success, issued := RecordOutcomes(sourceFiles, outputFiles, options, run);
    summary := Summarize(success);
    code := ExitStatus(success);
    SummaryShowsFailure(success, summary);
  }
}
