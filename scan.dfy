/**
 * The control flow of `main` (main.py) around the indexer and the dispatch
 * loop: the whitelist and rule-registry early exits, the derived repository
 * name and report path, and the final call to the report generator.
 */
module Scan {
  import opened Strings
  import opened Findings
  import opened Rules
  import opened Indexer
  import opened Dispatch
  import opened Wrappers

  /** The repository name `get_repo` derives from a URL: `url.rstrip("/").split("/")[-1].removesuffix(".git")`. */
  function RepoName(url: string): (r: string)
    ensures '/' !in r
  {
    RemoveSuffix(LastPiece(RStripChar(url, '/'), '/'), ".git")
  }

  /** Trailing slashes do not change the name. */
  lemma RepoNameIgnoresTrailingSlash(url: string)
    ensures RepoName(url + "/") == RepoName(url)
  {
    assert (url + "/")[..|url|] == url;
  }

  /** The name is the URL's last segment without one trailing `.git`. */
  lemma RepoNameIsLastSegment(prefix: string, segment: string)
    requires segment != [] && '/' !in segment
    ensures RepoName(prefix + "/" + segment) == RemoveSuffix(segment, ".git")
    ensures |segment| >= 4 && segment[|segment| - 4..] == ".git" ==>
              RepoName(prefix + "/" + segment) + ".git" == segment
  {
    var url := prefix + "/" + segment;
    assert RStripChar(url, '/') == url;
    LastPieceAfterSeparator(prefix, segment, '/');
  }

  /** `Path("reports") / f"{repo_name}-security-report.md"`, in POSIX form. */
  function ReportPath(repoName: string): (r: string)
    ensures |r| == |repoName| + |"reports/"| + |"-security-report.md"|
    ensures r[..|"reports/"|] == "reports/" && r[|"reports/"|..|"reports/"| + |repoName|] == repoName
    ensures r[|r| - |"-security-report.md"|..] == "-security-report.md"
  {
    "reports/" + repoName + "-security-report.md"
  }

  /** The report lands in `reports/`, under a file name built from the repository name alone. */
  lemma ReportPathShape(repoName: string)
    requires '/' !in repoName
    ensures Split(ReportPath(repoName), '/') == ["reports", repoName + "-security-report.md"]
  {
    var file := repoName + "-security-report.md";
    assert '/' !in file;
    assert ReportPath(repoName) == Join(["reports", file], "/");
    SplitJoin(["reports", file], '/');
  }

  /** Different repository names get different report paths. */
  lemma ReportPathInjective(a: string, b: string)
    requires ReportPath(a) == ReportPath(b)
    ensures a == b
  {
    var n := |"reports/"|;
    assert |a| == |b|;
    assert a == ReportPath(a)[n..n + |a|];
    assert b == ReportPath(b)[n..n + |b|];
  }

  /** `set(e.lower() for e in load_whitelist())`. */
  function WhitelistSet(whitelist: seq<string>): (r: set<string>)
    ensures forall k :: 0 <= k < |whitelist| ==> Lower(whitelist[k]) in r
    ensures forall x :: x in r ==> exists k :: 0 <= k < |whitelist| && Lower(whitelist[k]) == x
    ensures r == {} <==> whitelist == []
  {
    var r := set e | e in whitelist :: Lower(e);
    assert whitelist != [] ==> Lower(whitelist[0]) in r;
    r
  }

  /**
   * How `main` ends. `HandlerRaised` is the decoding-error handler raising
   * before any agent run has returned (see `Dispatch.RunAsWritten`): the
   * exception leaves `main` and no report call is made.
   * `ReportCallRejected` records the arguments of the final
   * `generate_markdown_report(findings, non_indexed_files, report_path)`
   * call: the function declares four parameters and is passed three, so
   * Python rejects the call and no report is written.
   */
  datatype ScanOutcome =
    | NoWhitelist
    | NoRules
    | HandlerRaised(analysed: seq<string>)
    | ReportCallRejected(findings: seq<Finding>, unanalyzed: seq<string>, reportPath: string, analysed: seq<string>)

  /** The files `main` indexes, for a whitelist and a walk. */
  function IndexOf(whitelist: seq<string>, ignoredDirs: set<string>, ignoredFiles: set<string>, tree: seq<Entry>): seq<string>
  {
    Listed(tree, InIndex, WhitelistSet(whitelist), ignoredDirs, ignoredFiles)
  }

  /** The registry `main` loads, for a whitelist. */
  function RulesOf(whitelist: seq<string>, ruleDirs: seq<RuleDir>): map<string, LanguageRule>
  {
    LoadAll(ruleDirs, Some(WhitelistSet(whitelist)))
  }

  /**
   * `main` from loading the configuration to the report call, for a
   * repository that was obtained (its walk is `tree`, its root directory's
   * name `repoRootName`) and an agent given as `analyse`. The dispatch loop
   * is the one main.py runs, handler escape included; when it does not
   * raise, its findings are those of the loop that isolates every failure.
   */
  method RunScan(whitelist: seq<string>, ignoredDirs: set<string>, ignoredFiles: set<string>,
                 rulesDirIsDir: bool, ruleDirs: seq<RuleDir>,
                 tree: seq<Entry>, repoRootName: string, analyse: (string, LanguageRule) -> Outcome)
    returns (outcome: ScanOutcome)
    ensures outcome.NoWhitelist? <==> WhitelistSet(whitelist) == {}
    ensures outcome.NoRules? <==>
              WhitelistSet(whitelist) != {} && (!rulesDirIsDir || RulesOf(whitelist, ruleDirs) == map[])
    ensures outcome.HandlerRaised? <==>
              WhitelistSet(whitelist) != {} && rulesDirIsDir && RulesOf(whitelist, ruleDirs) != map[]
              && RunAsWritten(IndexOf(whitelist, ignoredDirs, ignoredFiles, tree), RulesOf(whitelist, ruleDirs), analyse).crashed
    ensures outcome.HandlerRaised? ==>
              outcome.analysed == RunAsWritten(IndexOf(whitelist, ignoredDirs, ignoredFiles, tree), RulesOf(whitelist, ruleDirs), analyse).analysed
    ensures outcome.ReportCallRejected? ==>
              var index := IndexOf(whitelist, ignoredDirs, ignoredFiles, tree);
              var rules := RulesOf(whitelist, ruleDirs);
              outcome.findings == RunAsWritten(index, rules, analyse).findings
              && outcome.findings == Collect(index, rules, analyse)
              && outcome.analysed == Analysed(index, rules)
              && outcome.unanalyzed == Listed(tree, OutOfIndex, WhitelistSet(whitelist), ignoredDirs, ignoredFiles)
              && outcome.reportPath == ReportPath(repoRootName)
  {
    var whitelistedExts := WhitelistSet(whitelist);
    if whitelistedExts == {} {
      return NoWhitelist;
    }
    var rulesMap := LoadRules(rulesDirIsDir, ruleDirs, Some(whitelistedExts));
    if rulesMap == map[] {
      return NoRules;
    }
    var fileIndex, nonIndexedFiles := BuildFileIndex(tree, whitelistedExts, ignoredDirs, ignoredFiles);
    var reportPath := ReportPath(repoRootName);
    if fileIndex == [] {
      return ReportCallRejected([], nonIndexedFiles, reportPath, []);
    }
    var allFindings, analysed, crashed := DispatchFilesAsWritten(fileIndex, rulesMap, analyse);
    if crashed {
      return HandlerRaised(analysed);
    }
    AsWrittenAgreesUnlessCrashed(fileIndex, rulesMap, analyse);
    outcome := ReportCallRejected(allFindings, nonIndexedFiles, reportPath, analysed);
  }

  /**
   * Every file the agent is run on is in the index, has no pruned
   * component, and its lower-cased suffix is whitelisted and has a rule.
   */
  lemma AnalysedFilesQualify(whitelist: seq<string>, ignoredDirs: set<string>, ignoredFiles: set<string>,
                             ruleDirs: seq<RuleDir>, tree: seq<Entry>, f: string)
    requires forall i :: 0 <= i < |tree| ==> WellFormed(tree[i])
    requires var allowed := WhitelistSet(whitelist);
             f in Analysed(Listed(tree, InIndex, allowed, ignoredDirs, ignoredFiles), LoadAll(ruleDirs, Some(allowed)))
    ensures FileExt(f) in WhitelistSet(whitelist)
    ensures FileExt(f) in LoadAll(ruleDirs, Some(WhitelistSet(whitelist)))
    ensures forall k :: 0 <= k < |Split(f, '/')| ==> Split(f, '/')[k] !in ignoredDirs
  {
    var allowed := WhitelistSet(whitelist);
    var index := Listed(tree, InIndex, allowed, ignoredDirs, ignoredFiles);
    AnalysedMember(index, LoadAll(ruleDirs, Some(allowed)), f);
    ListedPathClean(tree, InIndex, f, allowed, ignoredDirs, ignoredFiles);
  }
}
