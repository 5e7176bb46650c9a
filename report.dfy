/**
 * The Markdown report (`generate_markdown_report` in config.py): a fixed
 * header, then one of three bodies (a clean scan, nothing new because every
 * file was a cache hit, or one table per file), then the optional lists of
 * skipped and of unanalyzed files. `Layout` is what the report says;
 * `Render` is its text.
 */
module Report {
  import opened Wrappers
  import opened Strings
  import opened Findings
  import opened Sorting
  import opened Seqs

  // ---------------------------------------------------------------------------
  // Grouping findings by file
  // ---------------------------------------------------------------------------

  /** The distinct file paths of the findings, in first-occurrence order (the keys of the `defaultdict`). */
  function Paths(fs: seq<Finding>): seq<string>
  {
    if fs == [] then []
    else
      var before := Paths(fs[..|fs| - 1]);
      var p := fs[|fs| - 1].filePath;
      if p in before then before else before + [p]
  }

  /** The findings of one file, in the order they were reported. */
  function Group(fs: seq<Finding>, path: string): (r: seq<Finding>)
    ensures forall k :: 0 <= k < |r| ==> r[k].filePath == path
  {
    if fs == [] then []
    else
      var last := fs[|fs| - 1];
      Group(fs[..|fs| - 1], path) + (if last.filePath == path then [last] else [])
  }

  /** No string occurs twice. */
  predicate Distinct(s: seq<string>)
  {
    forall i, j :: 0 <= i < j < |s| ==> s[i] != s[j]
  }

  /** Some finding was reported for `p`. */
  predicate Reported(fs: seq<Finding>, p: string)
  {
    exists k :: 0 <= k < |fs| && fs[k].filePath == p
  }

  lemma ReportedAppend(fs: seq<Finding>, f: Finding, p: string)
    ensures Reported(fs + [f], p) <==> Reported(fs, p) || f.filePath == p
  {
    var all := fs + [f];
    if Reported(all, p) {
      var k :| 0 <= k < |all| && all[k].filePath == p;
      if k < |fs| {
        assert all[k] == fs[k];
      }
    }
    if Reported(fs, p) {
      var k :| 0 <= k < |fs| && fs[k].filePath == p;
      assert all[k] == fs[k];
    }
    if f.filePath == p {
      assert all[|fs|] == f;
    }
  }

  /** A new string at the end keeps a sequence free of repeats. */
  lemma DistinctSnoc(s: seq<string>, x: string)
    requires Distinct(s) && x !in s
    ensures Distinct(s + [x])
  {
    var t := s + [x];
    forall i, j | 0 <= i < j < |t|
      ensures t[i] != t[j]
    {
      assert t[i] == s[i];
      if j < |s| {
        assert t[j] == s[j];
      }
    }
  }

  /** The keys are exactly the reported paths, each once. */
  lemma {:induction false} PathsSpec(fs: seq<Finding>, p: string)
    ensures Distinct(Paths(fs))
    ensures p in Paths(fs) <==> Reported(fs, p)
  {
    if fs != [] {
      var init := fs[..|fs| - 1];
      var last := fs[|fs| - 1];
      SplitLast(fs);
      PathsSpec(init, p);
      ReportedAppend(init, last, p);
      if last.filePath !in Paths(init) {
        DistinctSnoc(Paths(init), last.filePath);
      }
    }
  }

  /** A finding is in its file's group, and in no other. */
  lemma {:induction false} GroupMember(fs: seq<Finding>, path: string, f: Finding)
    ensures f in Group(fs, path) <==> f in fs && f.filePath == path
  {
    if fs != [] {
      var init := fs[..|fs| - 1];
      GroupMember(init, path, f);
      assert fs == init + [fs[|fs| - 1]];
    }
  }

  // ---------------------------------------------------------------------------
  // `sorted(file_findings, key=lambda x: x.severity)`
  // ---------------------------------------------------------------------------

  /** The findings of one severity, in order. */
  function OfSeverity(fs: seq<Finding>, s: Severity): (r: seq<Finding>)
    ensures forall k :: 0 <= k < |r| ==> r[k].severity == s
  {
    if fs == [] then []
    else OfSeverity(fs[..|fs| - 1], s) + (if fs[|fs| - 1].severity == s then [fs[|fs| - 1]] else [])
  }

  lemma {:induction false} OfSeverityAppend(a: seq<Finding>, b: seq<Finding>, s: Severity)
    ensures OfSeverity(a + b, s) == OfSeverity(a, s) + OfSeverity(b, s)
  {
    if b == [] {
      assert a + b == a;
    } else {
      var init := b[..|b| - 1];
      assert (a + b)[..|a + b| - 1] == a + init;
      assert (a + b)[|a + b| - 1] == b[|b| - 1];
      OfSeverityAppend(a, init, s);
    }
  }

  lemma {:induction false} OfSeveritySplit(fs: seq<Finding>)
    ensures multiset(OfSeverity(fs, Critical)) + multiset(OfSeverity(fs, Warning)) == multiset(fs)
  {
    if fs != [] {
      var init, last := fs[..|fs| - 1], fs[|fs| - 1];
      OfSeveritySplit(init);
      SplitLast(fs);
      OfSeverityLast(init, last, Critical);
      OfSeverityLast(init, last, Warning);
      SnocJoinsPart(OfSeverity(init, Critical), OfSeverity(init, Warning), init, last);
    }
  }

  /** A finding added at the end joins the list of its own severity, and no other. */
  lemma OfSeverityLast(init: seq<Finding>, last: Finding, s: Severity)
    ensures OfSeverity(init + [last], s) == OfSeverity(init, s) + (if last.severity == s then [last] else [])
  {
    assert (init + [last])[..|init|] == init;
  }

  /** When two parts make up a whole, an element added to either part is added to the whole. */
  lemma SnocJoinsPart<T>(a: seq<T>, b: seq<T>, whole: seq<T>, x: T)
    requires multiset(a) + multiset(b) == multiset(whole)
    ensures multiset(a + [x]) + multiset(b) == multiset(whole + [x])
    ensures multiset(a) + multiset(b + [x]) == multiset(whole + [x])
  {
    MultisetSnoc(a, x);
    MultisetSnoc(b, x);
    MultisetSnoc(whole, x);
  }

  lemma {:induction false} OfSeverityAll(fs: seq<Finding>, s: Severity)
    requires forall k :: 0 <= k < |fs| ==> fs[k].severity == s
    ensures OfSeverity(fs, s) == fs
  {
    if fs != [] {
      OfSeverityAll(fs[..|fs| - 1], s);
    }
  }

  lemma {:induction false} OfSeverityNone(fs: seq<Finding>, s: Severity)
    requires forall k :: 0 <= k < |fs| ==> fs[k].severity != s
    ensures OfSeverity(fs, s) == []
  {
    if fs != [] {
      OfSeverityNone(fs[..|fs| - 1], s);
    }
  }

  /** Python compares the two severity strings so that every CRITICAL sorts before every WARNING. */
  lemma SeverityNameOrder(a: Severity, b: Severity)
    ensures StrLe(SeverityName(a), SeverityName(b)) <==> !(a == Warning && b == Critical)
  {
    var x, y := SeverityName(a), SeverityName(b);
    if a == b {
      StrLeReflexive(x);
    } else {
      assert x[0] != y[0];
    }
  }

  /**
   * Python's stable sort by the severity string: since "CRITICAL" < "WARNING",
   * the result is a permutation with every CRITICAL row first, and the rows
   * of each severity keep their order.
   */
  function SortBySeverity(fs: seq<Finding>): (r: seq<Finding>)
    ensures multiset(r) == multiset(fs)
    ensures forall i, j :: 0 <= i < j < |r| ==> StrLe(SeverityName(r[i].severity), SeverityName(r[j].severity))
    ensures forall i, j :: 0 <= i < j < |r| ==> !(r[i].severity == Warning && r[j].severity == Critical)
    ensures OfSeverity(r, Critical) == OfSeverity(fs, Critical)
    ensures OfSeverity(r, Warning) == OfSeverity(fs, Warning)
  {
    var r := OfSeverity(fs, Critical) + OfSeverity(fs, Warning);
    CriticalThenWarning(fs);
    assert forall i, j :: 0 <= i < j < |r| ==> StrLe(SeverityName(r[i].severity), SeverityName(r[j].severity)) by {
      forall i, j | 0 <= i < j < |r|
        ensures StrLe(SeverityName(r[i].severity), SeverityName(r[j].severity))
      {
        SeverityNameOrder(r[i].severity, r[j].severity);
      }
    }
    r
  }

  /** The CRITICAL findings followed by the WARNING ones: a permutation, CRITICAL first, each severity in order. */
  lemma CriticalThenWarning(fs: seq<Finding>)
    ensures var r := OfSeverity(fs, Critical) + OfSeverity(fs, Warning);
            multiset(r) == multiset(fs)
            && (forall i, j :: 0 <= i < j < |r| ==> !(r[i].severity == Warning && r[j].severity == Critical))
            && OfSeverity(r, Critical) == OfSeverity(fs, Critical)
            && OfSeverity(r, Warning) == OfSeverity(fs, Warning)
  {
    var crit := OfSeverity(fs, Critical);
    var warn := OfSeverity(fs, Warning);
    var r := crit + warn;
    assert multiset(r) == multiset(fs) by {
      OfSeveritySplit(fs);
    }
    assert OfSeverity(r, Critical) == crit by {
      OfSeverityAppend(crit, warn, Critical);
      OfSeverityAll(crit, Critical);
      OfSeverityNone(warn, Critical);
      assert crit + [] == crit;
    }
    assert OfSeverity(r, Warning) == warn by {
      OfSeverityAppend(crit, warn, Warning);
      OfSeverityNone(crit, Warning);
      OfSeverityAll(warn, Warning);
      assert [] + warn == warn;
    }
    CriticalBeforeWarning(crit, warn);
  }

  lemma CriticalBeforeWarning(crit: seq<Finding>, warn: seq<Finding>)
    requires forall k :: 0 <= k < |crit| ==> crit[k].severity == Critical
    requires forall k :: 0 <= k < |warn| ==> warn[k].severity == Warning
    ensures var r := crit + warn;
            forall i, j :: 0 <= i < j < |r| ==> !(r[i].severity == Warning && r[j].severity == Critical)
  {
    var r := crit + warn;
    forall i, j | 0 <= i < j < |r|
      ensures !(r[i].severity == Warning && r[j].severity == Critical)
    {
      if i < |crit| {
        assert r[i] == crit[i];
      } else {
        assert r[j] == warn[j - |crit|];
      }
    }
  }

  // ---------------------------------------------------------------------------
  // What the report says
  // ---------------------------------------------------------------------------

  /** One file's table: its path and its rows in the order shown. */
  datatype FileTable = FileTable(path: string, rows: seq<Finding>)

  /** The three bodies the report can have. */
  datatype Body = Clean | NothingNew | Tables(tables: seq<FileTable>)

  /** The report's content: its body and the two lists, each already sorted (an empty list: no section). */
  datatype Layout = Layout(body: Body, skipped: seq<string>, unanalyzed: seq<string>)

  /** The file tables: one per reported path, in sorted path order. */
  function FileTables(findings: seq<Finding>): seq<FileTable>
  {
    var paths := SortStrings(Paths(findings));
    seq(|paths|, i requires 0 <= i < |paths| => FileTable(paths[i], SortBySeverity(Group(findings, paths[i]))))
  }

  /** The body: the clean-scan message, the nothing-new message, or the file tables. */
  function BodyOf(findings: seq<Finding>, skippedFiles: seq<string>): Body
  {
    if findings == [] && skippedFiles == [] then Clean
    else if findings == [] then NothingNew
    else Tables(FileTables(findings))
  }

  function LayoutOf(findings: seq<Finding>, unanalyzedFiles: seq<string>, skippedFiles: seq<string>): Layout
  {
    Layout(BodyOf(findings, skippedFiles), SortStrings(skippedFiles), SortStrings(unanalyzedFiles))
  }

  /**
   * Exactly one of the three bodies: the clean-scan message when there are
   * neither findings nor skipped files, the nothing-new message when only
   * skipped files, the tables otherwise. The lists appear exactly when
   * non-empty, sorted.
   */
  lemma LayoutSections(findings: seq<Finding>, unanalyzedFiles: seq<string>, skippedFiles: seq<string>)
    ensures var l := LayoutOf(findings, unanalyzedFiles, skippedFiles);
            (l.body.Clean? <==> findings == [] && skippedFiles == [])
            && (l.body.NothingNew? <==> findings == [] && skippedFiles != [])
            && (l.body.Tables? <==> findings != [])
            && (l.skipped == [] <==> skippedFiles == [])
            && (l.unanalyzed == [] <==> unanalyzedFiles == [])
            && Sorted(l.skipped) && multiset(l.skipped) == multiset(skippedFiles)
            && Sorted(l.unanalyzed) && multiset(l.unanalyzed) == multiset(unanalyzedFiles)
  {
  }

  lemma {:induction false} DistinctCounts(s: seq<string>, x: string)
    requires Distinct(s)
    ensures multiset(s)[x] <= 1
  {
    if s != [] {
      var init := s[..|s| - 1];
      DistinctCounts(init, x);
      assert s == init + [s[|s| - 1]];
      if x == s[|s| - 1] {
        assert x !in init;
      }
    }
  }

  lemma SameCountsDistinct(s: seq<string>, r: seq<string>)
    requires Distinct(s) && multiset(r) == multiset(s)
    ensures Distinct(r)
  {
    forall i, j | 0 <= i < j < |r| ensures r[i] != r[j] {
      if r[i] == r[j] {
        assert r == r[..i] + [r[i]] + r[i + 1..j] + [r[j]] + r[j + 1..];
        assert multiset(r)[r[i]] >= 2;
        DistinctCounts(s, r[i]);
      }
    }
  }

  /** File sections appear in strictly ascending path order, one per file that has findings. */
  lemma TablesAscending(findings: seq<Finding>)
    ensures var ts := FileTables(findings);
            forall i, j :: 0 <= i < j < |ts| ==> StrLe(ts[i].path, ts[j].path) && !StrLe(ts[j].path, ts[i].path)
  {
    var paths := SortStrings(Paths(findings));
    PathsSpec(findings, "");
    SameCountsDistinct(Paths(findings), paths);
    FileTablesShape(findings);
    forall i, j | 0 <= i < j < |paths| ensures StrLe(paths[i], paths[j]) && !StrLe(paths[j], paths[i]) {
      SortedDistinctAscending(paths, i, j);
    }
  }

  /**
   * Every finding appears in the table of its own file, and every row of a
   * table belongs to that table's file and was reported; within a table
   * the rows are the file's findings with every CRITICAL one before every
   * WARNING one, each severity in reported order.
   */
  lemma TablesHoldFindings(findings: seq<Finding>, f: Finding)
    ensures var ts := FileTables(findings);
            f in findings ==> exists i :: 0 <= i < |ts| && ts[i].path == f.filePath && f in ts[i].rows
    ensures var ts := FileTables(findings);
            forall i :: 0 <= i < |ts| ==>
              multiset(ts[i].rows) == multiset(Group(findings, ts[i].path))
              && OfSeverity(ts[i].rows, Critical) == OfSeverity(Group(findings, ts[i].path), Critical)
              && OfSeverity(ts[i].rows, Warning) == OfSeverity(Group(findings, ts[i].path), Warning)
              && (forall a, b :: 0 <= a < b < |ts[i].rows| ==>
                    !(ts[i].rows[a].severity == Warning && ts[i].rows[b].severity == Critical))
  {
    var ts := FileTables(findings);
    var paths := SortStrings(Paths(findings));
    FileTablesShape(findings);
    if f in findings {
      var k :| 0 <= k < |findings| && findings[k] == f;
      PathsSpec(findings, f.filePath);
      assert f.filePath in multiset(paths);
      var i :| 0 <= i < |paths| && paths[i] == f.filePath;
      GroupMember(findings, f.filePath, f);
      assert f in multiset(ts[i].rows);
    }
  }

  // ---------------------------------------------------------------------------
  // The text
  // ---------------------------------------------------------------------------

  const Header := "# Security Analysis Report\n\nThis report details the security vulnerabilities found by the AI agent.\n"
  const CleanText := "\n**No security vulnerabilities were found in the analyzed files.**\n"
  const NothingNewText := "\n**No new security vulnerabilities were found. All files passed the cache check.**\n"
  const SkippedIntro := "\n---\n\n### Skipped Files (Unchanged)\n\nThe following files were not analyzed in this run because their content has not changed since the last analysis:\n\n"
  const FileHeadingStart := "\n---\n\n### File: `"
  const FileHeadingEnd :=
    "`\n\n"
    + "| Severity | Issue | Explanation | Recommendation | Aprox Line |\n"
    + "|----------|-------|-------------|----------------|------------|\n"
  const UnanalyzedIntro := "\n---\n\n### Unanalyzed Files\n\nThe following files were not analyzed because their extensions are not in the whitelist or they are in the blacklist:\n\n"

  /** `str(n)` for an integer: a minus sign for a negative one, then its decimal digits. */
  function IntToString(n: int): (r: string)
    ensures r != [] && (r[0] == '-' || '0' <= r[0] <= '9')
    ensures forall k :: 1 <= k < |r| ==> '0' <= r[k] <= '9'
    ensures r[0] == '-' <==> n < 0
    ensures var start := if r[0] == '-' then 1 else 0;
            start < |r| && (r[start] == '0' ==> r == "0")
    ensures DecimalValue(r) == n
  {
    if n < 0 then "-" + NatToString(-n) else NatToString(n)
  }

  /** `str(n)` for a natural number: its decimal digits, without leading zero. */
  function NatToString(n: nat): (r: string)
    ensures r != [] && forall k :: 0 <= k < |r| ==> '0' <= r[k] <= '9'
    ensures DigitsValue(r) == n
    ensures r[0] == '0' ==> r == "0"
  {
    var digit := ['0' + (n % 10) as char];
    if n < 10 then digit
    else
      var high := NatToString(n / 10);
      assert (high + digit)[..|high|] == high;
      high + digit
  }

  /** The number a string of decimal digits spells. */
  function DigitsValue(s: string): int
  {
    if s == [] then 0 else 10 * DigitsValue(s[..|s| - 1]) + (s[|s| - 1] as int - '0' as int)
  }

  /** The number a decimal numeral with an optional minus sign spells. */
  function DecimalValue(s: string): int
  {
    if s != [] && s[0] == '-' then -DigitsValue(s[1..]) else DigitsValue(s)
  }

  /** Different line numbers render differently. */
  lemma IntToStringInjective(a: int, b: int)
    requires IntToString(a) == IntToString(b)
    ensures a == b
  {
    assert DecimalValue(IntToString(a)) == a;
  }

  // Font tags of the severity cell.
  const RedFont := "<font color='red'>"
  const OrangeFont := "<font color='orange'>"
  const FontEnd := "</font>"

  /** The severity cell: the stored severity string, in a red font tag when CRITICAL and an orange one when WARNING. */
  function SeverityCell(s: Severity): (r: string)
    ensures s == Critical ==> r == RedFont + SeverityName(s) + FontEnd
    ensures s == Warning ==> r == OrangeFont + SeverityName(s) + FontEnd
  {
    var name := SeverityName(s);
    match s
    case Critical => RedFont + name + FontEnd
    case Warning => OrangeFont + name + FontEnd
  }

  /** The line cell: the number, or `N/A` when there is none (no number renders as `N/A`). */
  function LineCell(lineHint: Option<int>): (r: string)
    ensures r == "N/A" <==> lineHint.None?
    ensures lineHint.Some? ==> r == IntToString(lineHint.value)
  {
    match lineHint
    case None => "N/A"
    case Some(n) =>
      var s := IntToString(n);
      assert s[0] != 'N';
      s
  }

  /** The recommendation cell: the text, or `-` when there is none. */
  function RecommendationCell(recommendation: Option<string>): (r: string)
    ensures recommendation.None? ==> r == "-"
    ensures recommendation.Some? ==> r == recommendation.value
  {
    recommendation.GetOr("-")
  }

  /** One table row: the five cells between bars, ended by a newline. */
  function RowText(f: Finding): (r: string)
    ensures |r| >= 2 && r[0] == '|' && r[|r| - 1] == '\n'
  {
    RowLine(f) + "\n"
  }

  /** A row without its newline. */
  function RowLine(f: Finding): string
  {
    "| " + SeverityCell(f.severity) + " | " + f.issue + " | " + f.explanation + " | "
      + RecommendationCell(f.recommendation) + " | " + LineCell(f.lineHint) + " |"
  }

  /** A finding whose texts hold no newline renders as exactly one line of the table. */
  lemma RowIsOneLine(f: Finding)
    requires '\n' !in f.issue && '\n' !in f.explanation
    requires f.recommendation.Some? ==> '\n' !in f.recommendation.value
    ensures '\n' !in RowText(f)[..|RowText(f)| - 1]
  {
    assert RowText(f)[..|RowText(f)| - 1] == RowLine(f);
    var bar: string := " | ";
    BarsOneLine();
    SeverityCellOneLine(f.severity);
    var line := LineCell(f.lineHint);
    LineCellOneLine(f.lineHint);
    var rec := RecommendationCell(f.recommendation);
    var s := "| " + SeverityCell(f.severity);
    NoNewlineAppend(s, bar);
    NoNewlineAppend(s + bar, f.issue);
    s := s + bar + f.issue;
    NoNewlineAppend(s, bar);
    NoNewlineAppend(s + bar, f.explanation);
    s := s + bar + f.explanation;
    NoNewlineAppend(s, bar);
    NoNewlineAppend(s + bar, rec);
    s := s + bar + rec;
    NoNewlineAppend(s, bar);
    NoNewlineAppend(s + bar, line);
    s := s + bar + line;
    NoNewlineAppend(s, " |");
  }

  lemma BarsOneLine()
    ensures '\n' !in " | " && '\n' !in "| " && '\n' !in " |"
  {
  }

  lemma SeverityCellOneLine(s: Severity)
    ensures '\n' !in SeverityCell(s)
  {
    var open := if s == Critical then RedFont else OrangeFont;
    assert '\n' !in open;
    assert '\n' !in SeverityName(s);
    assert '\n' !in FontEnd;
    NoNewlineAppend(open, SeverityName(s));
    NoNewlineAppend(open + SeverityName(s), FontEnd);
  }

  lemma LineCellOneLine(lineHint: Option<int>)
    ensures '\n' !in LineCell(lineHint)
  {
    var line := LineCell(lineHint);
    if lineHint.Some? {
      IntToStringOneLine(lineHint.value);
    } else {
      assert line == "N/A";
    }
  }

  /** A printed number holds no line break. */
  lemma IntToStringOneLine(n: int)
    ensures '\n' !in IntToString(n)
  {
    var r := IntToString(n);
    assert r[0] != '\n';
    assert forall k :: 1 <= k < |r| ==> r[k] != '\n';
  }

  lemma NoNewlineAppend(a: string, b: string)
    requires '\n' !in a && '\n' !in b
    ensures '\n' !in a + b
  {
  }

  function RowsText(rows: seq<Finding>): string
  {
    if rows == [] then "" else RowsText(rows[..|rows| - 1]) + RowText(rows[|rows| - 1])
  }

  function TableHeading(path: string): string
  {
    FileHeadingStart + path + FileHeadingEnd
  }

  function TablesText(ts: seq<FileTable>): string
  {
    if ts == [] then ""
    else
      var last := ts[|ts| - 1];
      TablesText(ts[..|ts| - 1]) + TableHeading(last.path) + RowsText(last.rows)
  }

  /** `"\n".join(f"- `{f}`" for f in files)`. */
  function BulletList(files: seq<string>): (r: string)
    ensures files == [] ==> r == ""
    ensures |files| == 1 ==> r == Bullet(files[0])
  {
    Join(Bullets(files), "\n")
  }

  /** The bullet of one file. */
  function Bullet(file: string): string
  {
    "- `" + file + "`"
  }

  function Bullets(files: seq<string>): seq<string>
  {
    seq(|files|, i requires 0 <= i < |files| => Bullet(files[i]))
  }

  /** Files without newlines are listed one per line, in order. */
  lemma BulletListLines(files: seq<string>)
    requires files != []
    requires forall k :: 0 <= k < |files| ==> '\n' !in files[k]
    ensures Split(BulletList(files), '\n') == Bullets(files)
  {
    var bullets := Bullets(files);
    forall k | 0 <= k < |bullets| ensures '\n' !in bullets[k] {
      assert bullets[k] == "- `" + files[k] + "`";
    }
    SplitJoin(bullets, '\n');
  }

  function BodyText(b: Body): string
  {
    match b
    case Clean => CleanText
    case NothingNew => NothingNewText
    case Tables(ts) => TablesText(ts)
  }

  /** A list section: nothing for an empty list, else its introduction and the bullets. */
  function ListSection(intro: string, files: seq<string>): string
  {
    if files == [] then "" else intro + BulletList(files)
  }

  function Render(l: Layout): string
  {
    Header + BodyText(l.body) + ListSection(SkippedIntro, l.skipped) + ListSection(UnanalyzedIntro, l.unanalyzed)
  }

  /** Every report starts with the fixed header. */
  lemma RenderStartsWithHeader(l: Layout)
    ensures |Render(l)| >= |Header| && Render(l)[..|Header|] == Header
  {
    var rest := BodyText(l.body) + ListSection(SkippedIntro, l.skipped) + ListSection(UnanalyzedIntro, l.unanalyzed);
    AppendAssoc3(Header, BodyText(l.body), ListSection(SkippedIntro, l.skipped), ListSection(UnanalyzedIntro, l.unanalyzed));
    SplitAtSeam(Header, rest);
  }

  /** One table per sorted path, holding that path's findings sorted by severity. */
  lemma FileTablesShape(findings: seq<Finding>)
    ensures var paths := SortStrings(Paths(findings));
            var ts := FileTables(findings);
            |ts| == |paths|
            && forall j :: 0 <= j < |ts| ==> ts[j] == FileTable(paths[j], SortBySeverity(Group(findings, paths[j])))
  {
  }

  /** The `j`-th table is the `j`-th sorted key with its group sorted by severity. */
  lemma TableOfGroup(findings: seq<Finding>, findingsByFile: map<string, seq<Finding>>, keys: seq<string>, j: int)
    requires keys == Paths(findings)
    requires forall p :: p in findingsByFile <==> p in keys
    requires forall p :: p in findingsByFile ==> findingsByFile[p] == Group(findings, p)
    requires 0 <= j < |SortStrings(keys)|
    ensures var p := SortStrings(keys)[j];
            p in findingsByFile && FileTables(findings)[j] == FileTable(p, SortBySeverity(findingsByFile[p]))
  {
    var p := SortStrings(keys)[j];
    assert p in multiset(keys);
    FileTablesShape(findings);
  }

  lemma RowsTextStep(rows: seq<Finding>, k: int)
    requires 0 <= k < |rows|
    ensures RowsText(rows[..k + 1]) == RowsText(rows[..k]) + RowText(rows[k])
  {
    assert rows[..k + 1][..k] == rows[..k];
  }

  lemma TablesTextStep(text: string, ts: seq<FileTable>, j: int)
    requires 0 <= j < |ts|
    ensures text + TablesText(ts[..j]) + TableHeading(ts[j].path) + RowsText(ts[j].rows) == text + TablesText(ts[..j + 1])
  {
    assert ts[..j + 1][..j] == ts[..j];
    var a, h, b := TablesText(ts[..j]), TableHeading(ts[j].path), RowsText(ts[j].rows);
    assert TablesText(ts[..j + 1]) == a + h + b;
    AppendAssoc(text, a, h);
    AppendAssoc(text, a + h, b);
  }

  // ---------------------------------------------------------------------------
  // The generator
  // ---------------------------------------------------------------------------

  /** The `defaultdict` loop: each path's findings in order, and the paths in first-occurrence order. */
  method GroupByFile(findings: seq<Finding>) returns (findingsByFile: map<string, seq<Finding>>, keys: seq<string>)
    ensures keys == Paths(findings)
    ensures forall p :: p in findingsByFile <==> p in keys
    ensures forall p :: p in findingsByFile ==> findingsByFile[p] == Group(findings, p)
  {
    findingsByFile, keys := map[], [];
    for i := 0 to |findings|
      invariant keys == Paths(findings[..i])
      invariant forall p :: p in findingsByFile <==> p in keys
      invariant forall p :: p in findingsByFile ==> findingsByFile[p] == Group(findings[..i], p)
    {
      assert findings[..i + 1][..i] == findings[..i];
      var f := findings[i];
      if f.filePath !in findingsByFile {
        PathsSpec(findings[..i], f.filePath);
        assert forall k :: 0 <= k < i ==> findings[..i][k].filePath != f.filePath;
        GroupNone(findings[..i], f.filePath);
        findingsByFile := findingsByFile[f.filePath := []];
        keys := keys + [f.filePath];
      }
      findingsByFile := findingsByFile[f.filePath := findingsByFile[f.filePath] + [f]];
    }
    assert findings[..|findings|] == findings;
  }

  /** The rows of one table, appended one by one. */
  method AppendRows(text: string, rows: seq<Finding>) returns (r: string)
    ensures r == text + RowsText(rows)
  {
    r := text;
    for k := 0 to |rows|
      invariant r == text + RowsText(rows[..k])
    {
      RowsTextStep(rows, k);
      AppendAssoc(text, RowsText(rows[..k]), RowText(rows[k]));
      r := r + RowText(rows[k]);
    }
    assert rows[..|rows|] == rows;
  }

  /** The `sorted(findings_by_file.items())` loop: one table per file, in path order. */
  method AppendTables(text: string, findings: seq<Finding>) returns (r: string)
    ensures r == text + TablesText(FileTables(findings))
  {
    var findingsByFile, keys := GroupByFile(findings);
    var paths := SortStrings(keys);
    ghost var tables := FileTables(findings);
    FileTablesShape(findings);
    forall j | 0 <= j < |paths|
      ensures paths[j] in findingsByFile && tables[j] == FileTable(paths[j], SortBySeverity(findingsByFile[paths[j]]))
    {
      TableOfGroup(findings, findingsByFile, keys, j);
    }
    r := AppendTableList(text, paths, findingsByFile, tables);
  }

  /** The loop over the sorted paths: one section per path, in order. */
  method AppendTableList(text: string, paths: seq<string>, findingsByFile: map<string, seq<Finding>>,
                         ghost tables: seq<FileTable>) returns (r: string)
    requires |tables| == |paths|
    requires forall j :: 0 <= j < |paths| ==>
               paths[j] in findingsByFile && tables[j] == FileTable(paths[j], SortBySeverity(findingsByFile[paths[j]]))
    ensures r == text + TablesText(tables)
  {
    r := text;
    for j := 0 to |paths|
      invariant r == text + TablesText(tables[..j])
    {
      var filePath := paths[j];
      var fileFindings := SortBySeverity(findingsByFile[filePath]);
      TablesTextStep(text, tables, j);
      r := AppendTable(r, filePath, fileFindings);
    }
    TakeAll(tables);
  }

  /** One file's section: its heading, then its rows. */
  method AppendTable(text: string, path: string, rows: seq<Finding>) returns (r: string)
    ensures r == text + TableHeading(path) + RowsText(rows)
  {
    r := text + TableHeading(path);
    r := AppendRows(r, rows);
  }

  /** The `if not findings and not skipped_files` / `elif` / `else` choice of body. */
  method AppendBody(text: string, findings: seq<Finding>, skippedFiles: seq<string>) returns (r: string)
    ensures r == text + BodyText(BodyOf(findings, skippedFiles))
  {
    ghost var body := BodyOf(findings, skippedFiles);
    if findings == [] && skippedFiles == [] {
      assert body == Clean;
      r := text + CleanText;
    } else if findings == [] && skippedFiles != [] {
      assert body == NothingNew;
      r := text + NothingNewText;
    } else {
      assert body == Tables(FileTables(findings));
      r := AppendTables(text, findings);
    }
  }

  /** One optional list: its introduction and its bullets, only when there are files to list. */
  method AppendList(text: string, intro: string, files: seq<string>) returns (r: string)
    ensures r == text + ListSection(intro, SortStrings(files))
  {
    r := text;
    if files != [] {
      r := r + intro;
      r := r + BulletList(SortStrings(files));
      AppendAssoc(text, intro, BulletList(SortStrings(files)));
    }
  }

  /**
   * `generate_markdown_report` without its final write: the text the
   * source writes to `output_path`.
   */
  method GenerateMarkdownReport(findings: seq<Finding>, unanalyzedFiles: seq<string>, skippedFiles: seq<string>)
    returns (reportContent: string)
    ensures reportContent == Render(LayoutOf(findings, unanalyzedFiles, skippedFiles))
  {
    ghost var l := LayoutOf(findings, unanalyzedFiles, skippedFiles);
    reportContent := AppendBody(Header, findings, skippedFiles);
    reportContent := AppendList(reportContent, SkippedIntro, skippedFiles);
    reportContent := AppendList(reportContent, UnanalyzedIntro, unanalyzedFiles);
  }

  lemma {:induction false} GroupNone(fs: seq<Finding>, path: string)
    requires forall k :: 0 <= k < |fs| ==> fs[k].filePath != path
    ensures Group(fs, path) == []
  {
    if fs != [] {
      GroupNone(fs[..|fs| - 1], path);
    }
  }
}
