/**
 * The per-file dispatch loop of `main` (main.py): each indexed file whose
 * lower-cased suffix has a rule is handed to the analysis agent, and the
 * findings it returns are accumulated; files without a rule are passed
 * over. The agent itself is an oracle `analyse` from (path, rule) to an
 * outcome.
 */
module Dispatch {
  import opened Wrappers
  import opened Strings
  import opened Findings
  import opened Rules
  import opened Seqs
  import Indexer

  /** What one agent run does: return a findings list, or raise a JSON decoding error or any other exception. */
  datatype Outcome = Returned(findings: seq<Finding>) | DecodeError | OtherError

  /** `Path(file_path).suffix.lower()` for a POSIX path string. */
  function FileExt(path: string): (r: string)
    ensures r == "" || (|r| >= 2 && r[0] == '.')
    ensures Lower(r) == r
  {
    var suffix := Indexer.Suffix(LastPiece(path, '/'));
    LowerIdempotent(suffix);
    Indexer.ExtKey(LastPiece(path, '/'))
  }

  /** `rules_map.get(file_ext)`: a rule is an object, so it is truthy exactly when it is present. */
  function RuleFor(rules: map<string, LanguageRule>, path: string): (r: Option<LanguageRule>)
    ensures r.Some? <==> FileExt(path) in rules
    ensures r.Some? ==> r.value == rules[FileExt(path)]
  {
    if FileExt(path) in rules then Some(rules[FileExt(path)]) else None
  }

  /** What one file adds to the accumulator when every failure is isolated to that file. */
  function FileFindings(path: string, rules: map<string, LanguageRule>, analyse: (string, LanguageRule) -> Outcome): seq<Finding>
  {
    match RuleFor(rules, path)
    case None => []
    case Some(rule) =>
      match analyse(path, rule)
      case Returned(fs) => fs
      case DecodeError => []
      case OtherError => []
  }

  /** The accumulated findings, file after file, in index order. */
  function Collect(files: seq<string>, rules: map<string, LanguageRule>, analyse: (string, LanguageRule) -> Outcome): seq<Finding>
  {
    if files == [] then []
    else
      var init := files[..|files| - 1];
      Collect(init, rules, analyse) + FileFindings(files[|files| - 1], rules, analyse)
  }

  /** The files the agent is run on, in index order: those with a rule. */
  function Analysed(files: seq<string>, rules: map<string, LanguageRule>): seq<string>
  {
    if files == [] then []
    else
      var init := files[..|files| - 1];
      var last := files[|files| - 1];
      Analysed(init, rules) + (if FileExt(last) in rules then [last] else [])
  }

  /**
   * The dispatch loop with every exception caught per file: the findings
   * are those of the analysed files in index order, and the agent runs on
   * exactly the files with a rule.
   */
  method DispatchFiles(files: seq<string>, rules: map<string, LanguageRule>, analyse: (string, LanguageRule) -> Outcome)
    returns (allFindings: seq<Finding>, analysed: seq<string>)
    ensures allFindings == Collect(files, rules, analyse)
    ensures analysed == Analysed(files, rules)
  {
    allFindings, analysed := [], [];
    for i := 0 to |files|
      invariant allFindings == Collect(files[..i], rules, analyse)
      invariant analysed == Analysed(files[..i], rules)
    {
      CollectStep(files, i, rules, analyse);
      var filePath := files[i];
      var fileExt := FileExt(filePath);
      if fileExt !in rules {
        continue;
      }
      var activeRule := rules[fileExt];
      analysed := analysed + [filePath];
      var outcome := analyse(filePath, activeRule);
      match outcome {
        case Returned(findings) =>
          allFindings := allFindings + findings;
        case DecodeError =>
          assert FileFindings(filePath, rules, analyse) == [];
        case OtherError =>
          assert FileFindings(filePath, rules, analyse) == [];
      }
    }
    assert files[..|files|] == files;
  }

  /** One more file of the index: the accumulator and the analysed files grow by what that file adds. */
  lemma CollectStep(files: seq<string>, i: int, rules: map<string, LanguageRule>, analyse: (string, LanguageRule) -> Outcome)
    requires 0 <= i < |files|
    ensures Collect(files[..i + 1], rules, analyse) == Collect(files[..i], rules, analyse) + FileFindings(files[i], rules, analyse)
    ensures Analysed(files[..i + 1], rules) == Analysed(files[..i], rules) + (if FileExt(files[i]) in rules then [files[i]] else [])
  {
    assert files[..i + 1][..i] == files[..i];
  }

  /** The accumulator splits along the index: later files add after earlier ones, whatever happened to the earlier ones. */
  lemma {:induction false} CollectAppend(a: seq<string>, b: seq<string>, rules: map<string, LanguageRule>,
                                         analyse: (string, LanguageRule) -> Outcome)
    ensures Collect(a + b, rules, analyse) == Collect(a, rules, analyse) + Collect(b, rules, analyse)
  {
    if b == [] {
      assert a + b == a;
    } else {
      var init := b[..|b| - 1];
      AppendInit(a, b);
      CollectAppend(a, init, rules, analyse);
      AppendAssoc(Collect(a, rules, analyse), Collect(init, rules, analyse), FileFindings(b[|b| - 1], rules, analyse));
    }
  }

  /** A file whose analysis fails, or that has no rule, leaves the findings of every other file as they were. */
  lemma FailedFileIsolated(before: seq<string>, f: string, after: seq<string>, rules: map<string, LanguageRule>,
                           analyse: (string, LanguageRule) -> Outcome)
    requires FileExt(f) !in rules || !analyse(f, rules[FileExt(f)]).Returned?
    ensures Collect(before + [f] + after, rules, analyse) == Collect(before + after, rules, analyse)
  {
    var head := before + [f];
    CollectAppend(head, after, rules, analyse);
    CollectAppend(before, [f], rules, analyse);
    CollectAppend(before, after, rules, analyse);
    CollectSingle(f, rules, analyse);
    var cb, ca := Collect(before, rules, analyse), Collect(after, rules, analyse);
    assert Collect(head, rules, analyse) == cb + [];
    assert cb + [] == cb;
    assert Collect(head + after, rules, analyse) == cb + ca;
  }

  lemma CollectSingle(f: string, rules: map<string, LanguageRule>, analyse: (string, LanguageRule) -> Outcome)
    requires FileExt(f) !in rules || !analyse(f, rules[FileExt(f)]).Returned?
    ensures Collect([f], rules, analyse) == []
  {
    assert [f][..0] == [];
    assert FileFindings(f, rules, analyse) == [];
  }

  /** The agent is run on a file exactly when the file is in the index and its lower-cased suffix has a rule. */
  lemma {:induction false} AnalysedMember(files: seq<string>, rules: map<string, LanguageRule>, f: string)
    ensures f in Analysed(files, rules) <==> f in files && FileExt(f) in rules
  {
    if files != [] {
      var init := files[..|files| - 1];
      AnalysedMember(init, rules, f);
      SplitLast(files);
    }
  }

  /** A file without a rule contributes no findings. */
  lemma NoRuleNoFindings(path: string, rules: map<string, LanguageRule>, analyse: (string, LanguageRule) -> Outcome)
    requires FileExt(path) !in rules
    ensures FileFindings(path, rules, analyse) == []
  {
  }

  /**
   * The loop as written: the handler for a JSON decoding error prints
   * `result.output`, and `result` is only assigned when an agent run
   * returns. If no run has returned yet, that handler raises, the exception
   * escapes the loop and `main` stops.
   */
  datatype RunState = RunState(findings: seq<Finding>, analysed: seq<string>, resultBound: bool, crashed: bool)

  function StepAsWritten(s: RunState, path: string, rules: map<string, LanguageRule>,
                         analyse: (string, LanguageRule) -> Outcome): RunState
  {
    if s.crashed then s
    else
      match RuleFor(rules, path)
      case None => s
      case Some(rule) =>
        var called := s.(analysed := s.analysed + [path]);
        match analyse(path, rule)
        case Returned(fs) => called.(findings := called.findings + fs, resultBound := true)
        case DecodeError => if s.resultBound then called else called.(crashed := true)
        case OtherError => called
  }

  function RunAsWritten(files: seq<string>, rules: map<string, LanguageRule>,
                        analyse: (string, LanguageRule) -> Outcome): RunState
  {
    if files == [] then RunState([], [], false, false)
    else StepAsWritten(RunAsWritten(files[..|files| - 1], rules, analyse), files[|files| - 1], rules, analyse)
  }

  /** One more file of the index is one more step of the as-written loop. */
  lemma RunStep(files: seq<string>, i: int, rules: map<string, LanguageRule>, analyse: (string, LanguageRule) -> Outcome)
    requires 0 <= i < |files|
    ensures RunAsWritten(files[..i + 1], rules, analyse) == StepAsWritten(RunAsWritten(files[..i], rules, analyse), files[i], rules, analyse)
  {
    assert files[..i + 1][..i] == files[..i];
  }

  /** The step from a state that has not crashed, case by case. */
  lemma StepCases(s: RunState, path: string, rules: map<string, LanguageRule>, analyse: (string, LanguageRule) -> Outcome)
    requires !s.crashed
    ensures RuleFor(rules, path).None? ==> StepAsWritten(s, path, rules, analyse) == s
    ensures RuleFor(rules, path).Some? ==>
              var o := analyse(path, RuleFor(rules, path).value);
              var called := s.(analysed := s.analysed + [path]);
              StepAsWritten(s, path, rules, analyse)
              == if o.Returned? then called.(findings := s.findings + o.findings, resultBound := true)
                 else if o.DecodeError? && !s.resultBound then called.(crashed := true)
                 else called
  {
  }

  /** Once the loop has crashed, later files change nothing. */
  lemma {:induction false} CrashAbsorbs(files: seq<string>, i: nat, rules: map<string, LanguageRule>,
                                        analyse: (string, LanguageRule) -> Outcome)
    requires i <= |files| && RunAsWritten(files[..i], rules, analyse).crashed
    ensures RunAsWritten(files, rules, analyse) == RunAsWritten(files[..i], rules, analyse)
  {
    if i < |files| {
      var init := files[..|files| - 1];
      assert init[..i] == files[..i];
      CrashAbsorbs(init, i, rules, analyse);
    } else {
      assert files[..i] == files;
    }
  }

  /** A decoding error before any run has returned ends the loop in the state that error leaves. */
  lemma CrashAt(files: seq<string>, i: int, rules: map<string, LanguageRule>, analyse: (string, LanguageRule) -> Outcome,
                s: RunState)
    requires 0 <= i < |files| && RunAsWritten(files[..i], rules, analyse) == s
    requires !s.crashed && !s.resultBound
    requires RuleFor(rules, files[i]).Some? && analyse(files[i], RuleFor(rules, files[i]).value) == DecodeError
    ensures RunAsWritten(files, rules, analyse) == s.(analysed := s.analysed + [files[i]], crashed := true)
  {
    RunStep(files, i, rules, analyse);
    CrashAbsorbs(files, i + 1, rules, analyse);
  }

  /** The dispatch loop as main.py writes it, including the escape from the decoding-error handler. */
  method DispatchFilesAsWritten(files: seq<string>, rules: map<string, LanguageRule>, analyse: (string, LanguageRule) -> Outcome)
    returns (allFindings: seq<Finding>, analysed: seq<string>, crashed: bool)
    ensures allFindings == RunAsWritten(files, rules, analyse).findings
    ensures analysed == RunAsWritten(files, rules, analyse).analysed
    ensures crashed == RunAsWritten(files, rules, analyse).crashed
  {
    allFindings, analysed, crashed := [], [], false;
    var resultBound := false;
    for i := 0 to |files|
      invariant RunAsWritten(files[..i], rules, analyse) == RunState(allFindings, analysed, resultBound, false)
    {
      RunStep(files, i, rules, analyse);
      StepCases(RunState(allFindings, analysed, resultBound, false), files[i], rules, analyse);
      var filePath := files[i];
      var found := RuleFor(rules, filePath);
      if found.None? {
        continue;
      }
      var activeRule := found.value;
      ghost var before := RunState(allFindings, analysed, resultBound, false);
      analysed := analysed + [filePath];
      var outcome := analyse(filePath, activeRule);
      match outcome {
        case Returned(findings) =>
          resultBound := true;
          allFindings := allFindings + findings;
        case DecodeError =>
          if !resultBound {
            crashed := true;
            CrashAt(files, i, rules, analyse, before);
            return;
          }
        case OtherError =>
      }
    }
    assert files[..|files|] == files;
  }

  /** When the as-written loop does not crash, it agrees with the isolated one. */
  lemma {:induction false} AsWrittenAgreesUnlessCrashed(files: seq<string>, rules: map<string, LanguageRule>,
                                                         analyse: (string, LanguageRule) -> Outcome)
    requires !RunAsWritten(files, rules, analyse).crashed
    ensures RunAsWritten(files, rules, analyse).findings == Collect(files, rules, analyse)
    ensures RunAsWritten(files, rules, analyse).analysed == Analysed(files, rules)
  {
    if files != [] {
      var init := files[..|files| - 1];
      StepAgrees(RunAsWritten(init, rules, analyse), files[|files| - 1], rules, analyse);
      AsWrittenAgreesUnlessCrashed(init, rules, analyse);
    }
  }

  /** A step that does not crash starts from a state that had not crashed and adds what the isolated loop adds. */
  lemma StepAgrees(s: RunState, path: string, rules: map<string, LanguageRule>, analyse: (string, LanguageRule) -> Outcome)
    requires !StepAsWritten(s, path, rules, analyse).crashed
    ensures !s.crashed
    ensures StepAsWritten(s, path, rules, analyse).findings == s.findings + FileFindings(path, rules, analyse)
    ensures StepAsWritten(s, path, rules, analyse).analysed == s.analysed + (if FileExt(path) in rules then [path] else [])
  {
    if RuleFor(rules, path).None? {
      assert s.findings + [] == s.findings && s.analysed + [] == s.analysed;
    } else if !analyse(path, RuleFor(rules, path).value).Returned? {
      assert s.findings + [] == s.findings;
    }
  }

  /**
   * A decoding error on the first analysed file, before any run has
   * returned, loses the findings of the next file as written, while the
   * isolated loop keeps them. `PyExt` shows two such files: `a.py` and `b.py`.
   */
  lemma DecodeErrorFirstLosesLaterFiles(a: string, b: string, rules: map<string, LanguageRule>,
                                        analyse: (string, LanguageRule) -> Outcome, fs: seq<Finding>)
    requires RuleFor(rules, a).Some? && analyse(a, RuleFor(rules, a).value) == DecodeError
    requires RuleFor(rules, b).Some? && analyse(b, RuleFor(rules, b).value) == Returned(fs)
    ensures RunAsWritten([a, b], rules, analyse).crashed
    ensures RunAsWritten([a, b], rules, analyse).findings == []
    ensures Collect([a, b], rules, analyse) == fs
  {
    var files := [a, b];
    assert files[..0] == [] && files[..2] == files;
    RunStep(files, 0, rules, analyse);
    RunStep(files, 1, rules, analyse);
    CollectStep(files, 0, rules, analyse);
    CollectStep(files, 1, rules, analyse);
    assert FileFindings(a, rules, analyse) == [] && FileFindings(b, rules, analyse) == fs;
    var s1 := RunState([], [a], false, true);
    assert RunAsWritten(files[..1], rules, analyse) == s1;
  }

  /** Concretely: `a.py` hits a decoding error, `b.py` returns one finding, and as written that finding is lost. */
  lemma DecodeErrorExample(rule: LanguageRule, x: Finding)
    ensures var rules := map[".py" := rule];
            var analyse := (p: string, r: LanguageRule) => if p == "a.py" then DecodeError else Returned([x]);
            RunAsWritten(["a.py", "b.py"], rules, analyse).findings == []
            && Collect(["a.py", "b.py"], rules, analyse) == [x]
  {
    var rules := map[".py" := rule];
    var analyse := (p: string, r: LanguageRule) => if p == "a.py" then DecodeError else Returned([x]);
    PyExt("a.py");
    PyExt("b.py");
    assert "b.py" != "a.py" by {
      assert "b.py"[0] != "a.py"[0];
    }
    DecodeErrorFirstLosesLaterFiles("a.py", "b.py", rules, analyse, [x]);
  }

  /** Python source files with a one-letter stem share the key `.py`. */
  lemma PyExt(name: string)
    requires |name| == 4 && name[1..] == ".py" && name[0] != '.' && name[0] != '/'
    ensures FileExt(name) == ".py"
  {
    SplitNoSeparator(name, '/');
    assert LastPiece(name, '/') == name;
    assert RFind(name, '.') == 1 by {
      assert name[3] != '.' && name[2] != '.' && name[1] == '.';
      assert name[..3][..2] == name[..2];
    }
    assert Indexer.Suffix(name) == ".py";
    assert Lower(".py") == ".py";
  }
}
