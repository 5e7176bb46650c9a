/**
 * The pure helpers of tools/github_utils.py: recognising a GitHub `tree`
 * or `blob` URL (`parse_github_url`), building the raw-content URL of a file
 * (`build_raw_url`), and turning the language model's answer into a list of
 * paths (`coerce_paths`).
 */
module GitHubUtils {
  import opened Wrappers
  import opened Strings
  import opened Seqs

  /** A value, or the message of the `ValueError` raised instead. */
  datatype Result<T> = Ok(value: T) | Err(message: string)

  // ---------------------------------------------------------------------------
  // `parse_github_url`
  // ---------------------------------------------------------------------------

  const GitHubPrefix := "https://github.com/"

  /** The four groups captured by `_GH_TREE_RE` or `_GH_BLOB_RE`. */
  datatype UrlMatch = UrlMatch(owner: string, repo: string, branch: string, path: string)

  /** The tuple `parse_github_url` returns. */
  datatype Location = Location(owner: string, repo: string, branch: string, basePath: string)

  /** What `[^/]+` captures: at least one character, none of them `/`. */
  predicate IsSegment(s: string)
  {
    s != [] && '/' !in s
  }

  /** The index of the first `/` in `s`, or -1. */
  function SlashIndex(s: string): (r: int)
    ensures -1 <= r < |s|
    ensures r >= 0 ==> s[r] == '/' && '/' !in s[..r]
    ensures r < 0 ==> '/' !in s
  {
    if s == [] then -1
    else if s[0] == '/' then 0
    else
      var k := SlashIndex(s[1..]);
      assert s[1..][..k + 1] == s[1..k + 2];
      assert s[..k + 2] == [s[0]] + s[1..][..k + 1];
      if k < 0 then -1 else k + 1
  }

  /** `[^/]+/` at the start of `s`: the segment, and what follows its slash. */
  function TakeSegment(s: string): (r: Option<(string, string)>)
    ensures r.Some? ==> IsSegment(r.value.0) && s == r.value.0 + "/" + r.value.1
  {
    var i := SlashIndex(s);
    if i <= 0 then None
    else
      assert s == s[..i] + "/" + s[i + 1..];
      Some((s[..i], s[i + 1..]))
  }

  /** A segment followed by a slash is always taken whole. */
  lemma TakeSegmentOf(seg: string, rest: string)
    requires IsSegment(seg)
    ensures TakeSegment(seg + "/" + rest) == Some((seg, rest))
  {
    var s := seg + "/" + rest;
    assert s[|seg|] == '/';
    assert s[..|seg|] == seg;
    assert s[|seg| + 1..] == rest;
    SlashIndexAt(s, |seg|);
  }

  /** The first slash is at `i` when there is one at `i` and none before. */
  lemma SlashIndexAt(s: string, i: int)
    requires 0 <= i < |s| && s[i] == '/' && '/' !in s[..i]
    ensures SlashIndex(s) == i
  {
  }

  /** What `.*` matches: everything up to the first newline. */
  function Line(s: string): (r: string)
    ensures |r| <= |s| && r == s[..|r|]
    ensures '\n' !in r
    ensures |r| == |s| || s[|r|] == '\n'
  {
    if s == [] || s[0] == '\n' then ""
    else
      var rest := Line(s[1..]);
      assert s[..|rest| + 1] == [s[0]] + s[1..][..|rest|];
      [s[0]] + rest
  }

  /** A newline-free text followed by nothing or by a newline is matched up to that point. */
  lemma {:induction false} LineOf(text: string, tail: string)
    requires '\n' !in text
    requires tail == [] || tail[0] == '\n'
    ensures Line(text + tail) == text
  {
    if text != [] {
      assert (text + tail)[1..] == text[1..] + tail;
      LineOf(text[1..], tail);
      assert [text[0]] + text[1..] == text;
    } else {
      assert text + tail == tail;
    }
  }

  /** `re.match` of `https://github\.com/([^/]+)/([^/]+)/<kind>/([^/]+)/(.*)` against `url`. */
  function MatchPattern(url: string, kind: string): (r: Option<UrlMatch>)
    ensures r.Some? ==> |GitHubPrefix| <= |url| && url[..|GitHubPrefix|] == GitHubPrefix
    ensures r.Some? ==> IsSegment(r.value.owner) && IsSegment(r.value.repo) && IsSegment(r.value.branch)
    ensures r.Some? ==> '\n' !in r.value.path
  {
    if |url| < |GitHubPrefix| || url[..|GitHubPrefix|] != GitHubPrefix then None
    else MatchSegments(url[|GitHubPrefix|..], kind)
  }

  /** The pattern after its fixed prefix: three segments around `kind`, then the path. */
  function MatchSegments(s: string, kind: string): (r: Option<UrlMatch>)
  {
    var s1 := TakeSegment(s);
    if s1.None? then None
    else
      var s2 := TakeSegment(s1.value.1);
      if s2.None? then None
      else
        var s3 := TakeSegment(s2.value.1);
        if s3.None? || s3.value.0 != kind then None
        else
          var s4 := TakeSegment(s3.value.1);
          if s4.None? then None
          else Some(UrlMatch(s1.value.0, s2.value.0, s4.value.0, Line(s4.value.1)))
  }

  /** What the segments part consumed, after the prefix. */
  function MatchedSegments(kind: string, m: UrlMatch): string
  {
    m.owner + "/" + (m.repo + "/" + (kind + "/" + (m.branch + "/" + m.path)))
  }

  /** The text a successful match consumed. */
  function Matched(kind: string, m: UrlMatch): string
  {
    GitHubPrefix + MatchedSegments(kind, m)
  }

  /** `s` starts with `p` and ends there or goes on with a newline. */
  predicate UpToLineEnd(s: string, p: string)
  {
    |p| <= |s| && s[..|p|] == p && (|p| == |s| || s[|p|] == '\n')
  }

  /** The part after the prefix: three segments around `kind`, and a path up to the end of the line. */
  lemma MatchSegmentsSound(s: string, kind: string)
    requires MatchSegments(s, kind).Some?
    ensures var m := MatchSegments(s, kind).value;
            IsSegment(m.owner) && IsSegment(m.repo) && IsSegment(m.branch) && '\n' !in m.path
            && UpToLineEnd(s, MatchedSegments(kind, m))
  {
    var t1 := TakeSegment(s).value;
    var t2 := TakeSegment(t1.1).value;
    var t3 := TakeSegment(t2.1).value;
    var t4 := TakeSegment(t3.1).value;
    var m := UrlMatch(t1.0, t2.0, t4.0, Line(t4.1));
    assert t3.0 == kind;
    assert MatchSegments(s, kind) == Some(m);
    var x4 := m.branch + "/" + m.path;
    var x3 := kind + "/" + x4;
    var x2 := m.repo + "/" + x3;
    GlueSegment(t3.1, m.path);
    GlueSegment(t2.1, x4);
    GlueSegment(t1.1, x3);
    GlueSegment(s, x2);
  }

  /** Taking a segment off the front keeps a line-end prefix of the rest one of the whole. */
  lemma GlueSegment(s: string, y: string)
    requires TakeSegment(s).Some? && UpToLineEnd(TakeSegment(s).value.1, y)
    ensures UpToLineEnd(s, TakeSegment(s).value.0 + "/" + y)
  {
    var t := TakeSegment(s).value;
    UpToLineEndShift(t.0 + "/", t.1, y);
  }

  /**
   * A match means the URL starts with the prefix, three slash-free segments
   * around `kind`, and a newline-free path that runs to the end of the URL
   * or to its first newline.
   */
  lemma MatchPatternSound(url: string, kind: string)
    requires MatchPattern(url, kind).Some?
    ensures var m := MatchPattern(url, kind).value;
            IsSegment(m.owner) && IsSegment(m.repo) && IsSegment(m.branch) && '\n' !in m.path
            && UpToLineEnd(url, Matched(kind, m))
  {
    var m := MatchSegments(url[|GitHubPrefix|..], kind).value;
    assert MatchPattern(url, kind).value == m;
    AfterPrefixSound(url, GitHubPrefix, kind);
  }

  /** A match of the segments after a prefix `p` of `url` is one of `p` and the segments. */
  lemma AfterPrefixSound(url: string, p: string, kind: string)
    requires |p| <= |url| && url[..|p|] == p
    requires MatchSegments(url[|p|..], kind).Some?
    ensures var m := MatchSegments(url[|p|..], kind).value;
            IsSegment(m.owner) && IsSegment(m.repo) && IsSegment(m.branch) && '\n' !in m.path
            && UpToLineEnd(url, p + MatchedSegments(kind, m))
  {
    var s := url[|p|..];
    var m := MatchSegments(s, kind).value;
    MatchSegmentsSound(s, kind);
    TakeDrop(url, |p|);
    UpToLineEndShift(p, s, MatchedSegments(kind, m));
  }

  /** Putting the same text in front of both keeps a line-end prefix one. */
  lemma UpToLineEndShift(p: string, s: string, y: string)
    requires UpToLineEnd(s, y)
    ensures UpToLineEnd(p + s, p + y)
  {
    PrefixShift(p, s, |y|);
  }

  /** Every URL of the documented shape matches, capturing exactly its parts. */
  lemma MatchPatternComplete(owner: string, repo: string, kind: string, branch: string, path: string, tail: string)
    requires IsSegment(owner) && IsSegment(repo) && IsSegment(kind) && IsSegment(branch)
    requires '\n' !in path
    requires tail == [] || tail[0] == '\n'
    ensures MatchPattern(Matched(kind, UrlMatch(owner, repo, branch, path)) + tail, kind)
              == Some(UrlMatch(owner, repo, branch, path))
  {
    var s := MatchedSegments(kind, UrlMatch(owner, repo, branch, path)) + tail;
    MatchSegmentsComplete(owner, repo, kind, branch, path, tail);
    AppendAssoc(GitHubPrefix, MatchedSegments(kind, UrlMatch(owner, repo, branch, path)), tail);
    SplitAtSeam(GitHubPrefix, s);
  }

  lemma MatchSegmentsComplete(owner: string, repo: string, kind: string, branch: string, path: string, tail: string)
    requires IsSegment(owner) && IsSegment(repo) && IsSegment(kind) && IsSegment(branch)
    requires '\n' !in path
    requires tail == [] || tail[0] == '\n'
    ensures MatchSegments(MatchedSegments(kind, UrlMatch(owner, repo, branch, path)) + tail, kind)
              == Some(UrlMatch(owner, repo, branch, path))
  {
    var r4 := path + tail;
    var r3 := branch + "/" + r4;
    var r2 := kind + "/" + r3;
    var r1 := repo + "/" + r2;
    var x4 := branch + "/" + path;
    var x3 := kind + "/" + x4;
    var x2 := repo + "/" + x3;
    NestTail(branch, '/', path, tail);
    NestTail(kind, '/', x4, tail);
    NestTail(repo, '/', x3, tail);
    NestTail(owner, '/', x2, tail);
    TakeSegmentOf(owner, r1);
    TakeSegmentOf(repo, r2);
    TakeSegmentOf(kind, r3);
    TakeSegmentOf(branch, r4);
    LineOf(path, tail);
  }

  /** At most one of the two patterns matches a URL, so trying `tree` first decides nothing. */
  lemma PatternsExclusive(url: string)
    ensures !(MatchPattern(url, "tree").Some? && MatchPattern(url, "blob").Some?)
  {
  }

  /** `path.rsplit('/', 1)[0] if '/' in path else ''`: the path up to its last slash. */
  function BasePath(path: string): (r: string)
    ensures |r| <= |path| && path[..|r|] == r
    ensures '/' !in path ==> r == ""
    ensures '/' in path ==> |r| < |path| && path[|r|] == '/' && '/' !in path[|r| + 1..]
  {
    var i := RFind(path, '/');
    NoneAfter(path, i + 1, '/');
    if i < 0 then "" else path[..i]
  }

  /** The base path of `dir/name` is `dir`. */
  lemma BasePathOf(dir: string, name: string)
    requires '/' !in name
    ensures BasePath(dir + "/" + name) == dir
  {
    var path := dir + "/" + name;
    assert path[|dir|] == '/';
    assert path[|dir| + 1..] == name;
    RFindAt(path, |dir|);
  }

  /** The last slash is at `i` when there is one at `i` and none after. */
  lemma RFindAt(s: string, i: int)
    requires 0 <= i < |s| && s[i] == '/' && '/' !in s[i + 1..]
    ensures RFind(s, '/') == i
  {
  }

  /** `parse_github_url`: the tree pattern, else the blob pattern, else `ValueError`. */
  function ParseGitHubUrl(url: string): (r: Result<Location>)
    ensures r.Err? <==> MatchPattern(url, "tree").None? && MatchPattern(url, "blob").None?
    ensures r.Err? ==> r.message == "URL no reconocida: " + url
  {
    var m := if MatchPattern(url, "tree").Some? then MatchPattern(url, "tree") else MatchPattern(url, "blob");
    match m
    case None => Err("URL no reconocida: " + url)
    case Some(UrlMatch(owner, repo, branch, path)) => Ok(Location(owner, repo, branch, BasePath(path)))
  }

  /**
   * A URL `https://github.com/<owner>/<repo>/<kind>/<branch>/<path>`, with
   * `kind` one of `tree` and `blob`, parses into its parts and the base of
   * its path, whatever follows a newline.
   */
  lemma ParseWellFormed(owner: string, repo: string, kind: string, branch: string, path: string, tail: string)
    requires kind == "tree" || kind == "blob"
    requires IsSegment(owner) && IsSegment(repo) && IsSegment(branch)
    requires '\n' !in path
    requires tail == [] || tail[0] == '\n'
    ensures ParseGitHubUrl(Matched(kind, UrlMatch(owner, repo, branch, path)) + tail)
              == Ok(Location(owner, repo, branch, BasePath(path)))
  {
    var url := Matched(kind, UrlMatch(owner, repo, branch, path)) + tail;
    MatchPatternComplete(owner, repo, kind, branch, path, tail);
    PatternsExclusive(url);
  }

  /** Whatever parses has slash-free, non-empty owner, repo and branch. */
  lemma ParsedSegments(url: string)
    requires ParseGitHubUrl(url).Ok?
    ensures var l := ParseGitHubUrl(url).value;
            IsSegment(l.owner) && IsSegment(l.repo) && IsSegment(l.branch) && '\n' !in l.basePath
  {
    var kind := if MatchPattern(url, "tree").Some? then "tree" else "blob";
    MatchPatternSound(url, kind);
  }

  /**
   * As written, a `tree` URL names a directory, yet its last segment is
   * dropped: `.../tree/main/src/app` gives the base path `src`.
   */
  lemma TreeUrlDropsItsDirectory(owner: string, repo: string, branch: string, dir: string, name: string)
    requires IsSegment(owner) && IsSegment(repo) && IsSegment(branch)
    requires '\n' !in dir + "/" + name && IsSegment(name)
    ensures var path := dir + "/" + name;
            var r := ParseGitHubUrl(Matched("tree", UrlMatch(owner, repo, branch, path)));
            r.Ok? && r.value.basePath == dir && r.value.basePath != path
  {
    var path := dir + "/" + name;
    ParseWellFormed(owner, repo, "tree", branch, path, []);
    assert Matched("tree", UrlMatch(owner, repo, branch, path)) + [] == Matched("tree", UrlMatch(owner, repo, branch, path));
    BasePathOf(dir, name);
  }

  /** The base path the URL designates: a `tree` URL's own path, a `blob` URL's directory. */
  function ParseGitHubUrlCorrected(url: string): (r: Result<Location>)
    ensures r.Err? <==> ParseGitHubUrl(url).Err?
  {
    match MatchPattern(url, "tree")
    case Some(m) => Ok(Location(m.owner, m.repo, m.branch, m.path))
    case None =>
      match MatchPattern(url, "blob")
      case None => Err("URL no reconocida: " + url)
      case Some(m) => Ok(Location(m.owner, m.repo, m.branch, BasePath(m.path)))
  }

  /** Corrected, a `tree` URL keeps the directory it names. */
  lemma CorrectedTreeKeepsDirectory(owner: string, repo: string, branch: string, path: string)
    requires IsSegment(owner) && IsSegment(repo) && IsSegment(branch) && '\n' !in path
    ensures var r := ParseGitHubUrlCorrected(Matched("tree", UrlMatch(owner, repo, branch, path)));
            r == Ok(Location(owner, repo, branch, path))
  {
    var url := Matched("tree", UrlMatch(owner, repo, branch, path));
    assert url + [] == url;
    MatchPatternComplete(owner, repo, "tree", branch, path, []);
  }

  /** Corrected, a `blob` URL still gives the directory holding its file. */
  lemma CorrectedBlobGivesDirectory(owner: string, repo: string, branch: string, dir: string, name: string)
    requires IsSegment(owner) && IsSegment(repo) && IsSegment(branch)
    requires '\n' !in dir + "/" + name && IsSegment(name)
    ensures var r := ParseGitHubUrlCorrected(Matched("blob", UrlMatch(owner, repo, branch, dir + "/" + name)));
            r == Ok(Location(owner, repo, branch, dir))
  {
    var path := dir + "/" + name;
    var url := Matched("blob", UrlMatch(owner, repo, branch, path));
    assert url + [] == url;
    MatchPatternComplete(owner, repo, "blob", branch, path, []);
    PatternsExclusive(url);
    BasePathOf(dir, name);
  }

  // ---------------------------------------------------------------------------
  // `build_raw_url`
  // ---------------------------------------------------------------------------

  const RawPrefix := "https://raw.githubusercontent.com/"

  /** `build_raw_url`: the raw-content URL, with every leading `/` of `path` removed. */
  function BuildRawUrl(owner: string, repo: string, branch: string, path: string): (r: string)
    ensures |RawPrefix| <= |r| && r[..|RawPrefix|] == RawPrefix
    ensures var rel := LStripChar(path, '/');
            |rel| <= |r| && r[|r| - |rel|..] == rel && (rel == [] || rel[0] != '/')
  {
    RawPrefix + (owner + "/" + (repo + "/" + (branch + "/" + LStripChar(path, '/'))))
  }

  /** Leading slashes on the path make no difference. */
  lemma RawUrlIgnoresLeadingSlashes(owner: string, repo: string, branch: string, path: string)
    ensures BuildRawUrl(owner, repo, branch, "/" + path) == BuildRawUrl(owner, repo, branch, path)
  {
    assert ("/" + path)[1..] == path;
  }

  /**
   * After the fixed host, the URL's `/`-separated pieces are the owner, the
   * repository, the branch, and then the pieces of the path without its
   * leading slashes.
   */
  lemma RawUrlPieces(owner: string, repo: string, branch: string, path: string)
    requires IsSegment(owner) && IsSegment(repo) && IsSegment(branch)
    ensures var r := BuildRawUrl(owner, repo, branch, path);
            |RawPrefix| <= |r| && r[..|RawPrefix|] == RawPrefix
            && Split(r[|RawPrefix|..], '/') == [owner, repo, branch] + Split(LStripChar(path, '/'), '/')
  {
    var rel := LStripChar(path, '/');
    SplitAtSeam(RawPrefix, owner + "/" + (repo + "/" + (branch + "/" + rel)));
    SegmentsPieces(owner, repo, branch, rel);
  }

  /** Three slash-free segments and a tail, joined by slashes, split into the segments and the tail's pieces. */
  lemma SegmentsPieces(owner: string, repo: string, branch: string, rel: string)
    requires '/' !in owner && '/' !in repo && '/' !in branch
    ensures Split(owner + "/" + (repo + "/" + (branch + "/" + rel)), '/') == [owner, repo, branch] + Split(rel, '/')
  {
    var x3 := branch + "/" + rel;
    var x2 := repo + "/" + x3;
    SplitAfterSegment(branch, rel);
    SplitAfterSegment(repo, x3);
    SplitAfterSegment(owner, x2);
    var pieces := Split(rel, '/');
    assert [owner] + ([repo] + ([branch] + pieces)) == [owner, repo, branch] + pieces;
  }

  /** A slash-free piece and a slash in front of `rest` add one piece in front of `rest`'s pieces. */
  lemma SplitAfterSegment(seg: string, rest: string)
    requires '/' !in seg
    ensures Split(seg + "/" + rest, '/') == [seg] + Split(rest, '/')
  {
    assert seg + "/" + rest == seg + ['/'] + rest;
    SplitAtSeparator(seg, rest, '/');
    SplitNoSeparator(seg, '/');
  }

  // ---------------------------------------------------------------------------
  // `coerce_paths`
  // ---------------------------------------------------------------------------

  /** What the language model hands back: a list already, or text. */
  datatype ModelOutput = ListOutput(items: seq<string>) | TextOutput(text: string)

  /** `[p.strip() for p in parts]` followed by `[p for p in parts if p]`. */
  function Clean(parts: seq<string>): (r: seq<string>)
    ensures |r| <= |parts|
    ensures forall k :: 0 <= k < |r| ==> r[k] != [] && Stripped(r[k])
  {
    if parts == [] then []
    else
      var p := Strip(parts[0]);
      (if p == [] then [] else [p]) + Clean(parts[1..])
  }

  lemma {:induction false} CleanAppend(a: seq<string>, b: seq<string>)
    ensures Clean(a + b) == Clean(a) + Clean(b)
  {
    if a != [] {
      assert (a + b)[0] == a[0] && (a + b)[1..] == a[1..] + b;
      CleanAppend(a[1..], b);
    } else {
      assert a + b == b;
    }
  }

  /** Parts already stripped and non-empty come through unchanged. */
  lemma {:induction false} CleanKeepsClean(parts: seq<string>)
    requires forall k :: 0 <= k < |parts| ==> parts[k] != [] && Stripped(parts[k])
    ensures Clean(parts) == parts
  {
    if parts != [] {
      CleanKeepsClean(parts[1..]);
      StripOfStripped(parts[0]);
    }
  }

  /** `s.replace('', ',')`: a comma before every character and one at the end. */
  function InsertCommas(s: string): (r: string)
    ensures |r| == 2 * |s| + 1 && r[0] == ','
  {
    if s == [] then "," else [',', s[0]] + InsertCommas(s[1..])
  }

  /** The commas sit at the even positions, the characters of `s` at the odd ones. */
  lemma {:induction false} InsertCommasShape(s: string)
    ensures forall k :: 0 <= k <= |s| ==> InsertCommas(s)[2 * k] == ','
    ensures forall k :: 0 <= k < |s| ==> InsertCommas(s)[2 * k + 1] == s[k]
  {
    if s != [] {
      var rest := InsertCommas(s[1..]);
      InsertCommasShape(s[1..]);
      var r := InsertCommas(s);
      assert r == [',', s[0]] + rest;
      forall k | 1 <= k <= |s|
        ensures r[2 * k] == ','
      {
        assert r[2 * k] == rest[2 * (k - 1)];
      }
      forall k | 1 <= k < |s|
        ensures r[2 * k + 1] == s[k]
      {
        assert r[2 * k + 1] == rest[2 * (k - 1) + 1];
      }
    }
  }

  /** Every character of `s` that is neither a comma nor whitespace, each as a one-character string. */
  function KeptChars(s: string): (r: seq<string>)
    ensures forall k :: 0 <= k < |r| ==> |r[k]| == 1 && r[k][0] in s && r[k][0] != ',' && !IsSpace(r[k][0])
  {
    if s == [] then []
    else (if s[0] == ',' || IsSpace(s[0]) then [] else [[s[0]]]) + KeptChars(s[1..])
  }

  /** The fallback as written, on text: split what `replace('', ',')` made, strip, drop empties. */
  function FallbackAsWritten(text: string): seq<string>
  {
    Clean(Split(InsertCommas(text), ','))
  }

  lemma CleanOneChar(x: char)
    ensures Clean(Split([x], ',')) == if x == ',' || IsSpace(x) then [] else [[x]]
  {
    if x == ',' {
      SplitAtSeparator([], [], ',');
      assert [] + [','] + [] == [x];
      assert Clean(["", ""]) == [];
    } else {
      SplitNoSeparator([x], ',');
      StripIsSlice([x]);
      if !IsSpace(x) {
        StripOfStripped([x]);
      }
    }
  }

  /**
   * As written, the fallback breaks the text into single characters: every
   * path of more than one character is lost.
   */
  lemma {:induction false} FallbackKeepsSingleChars(text: string)
    ensures FallbackAsWritten(text) == KeptChars(text)
  {
    var ic := InsertCommas(text);
    CommaFirst(text);
    CleanAfterComma(ic[1..]);
    if text != [] {
      var x := text[0];
      var r' := InsertCommas(text[1..])[1..];
      AfterFirstComma(text);
      CommaFirst(text[1..]);
      CleanAfterComma(r');
      SplitAtSeparator([x], r', ',');
      CleanAppend(Split([x], ','), Split(r', ','));
      CleanOneChar(x);
      FallbackKeepsSingleChars(text[1..]);
    }
  }

  /** `replace('', ',')` starts with a comma. */
  lemma CommaFirst(s: string)
    ensures InsertCommas(s) == [','] + InsertCommas(s)[1..]
  {
    ConsFirst(InsertCommas(s));
  }

  /** After its first comma, `replace('', ',')` has the first character, then the result for the rest. */
  lemma AfterFirstComma(s: string)
    requires s != []
    ensures InsertCommas(s)[1..] == [s[0]] + [','] + InsertCommas(s[1..])[1..]
  {
    var rest := InsertCommas(s[1..]);
    assert InsertCommas(s) == [',', s[0]] + rest;
    DropFirstOfPair(',', s[0], rest);
    CommaFirst(s[1..]);
    AppendAssoc([s[0]], [','], rest[1..]);
  }

  /** A leading comma only adds an empty piece, which cleaning drops. */
  lemma CleanAfterComma(r: string)
    ensures Clean(Split([','] + r, ',')) == Clean(Split(r, ','))
  {
    assert [] + [','] + r == [','] + r;
    SplitAtSeparator([], r, ',');
    CleanAppend([""], Split(r, ','));
    assert Clean([""]) == [];
    assert [] + Clean(Split(r, ',')) == Clean(Split(r, ','));
  }

  /** A text with neither commas nor whitespace keeps every character, one per string. */
  lemma {:induction false} KeptCharsAll(s: string)
    requires forall k :: 0 <= k < |s| ==> s[k] != ',' && !IsSpace(s[k])
    ensures |KeptChars(s)| == |s|
    ensures forall k :: 0 <= k < |s| ==> KeptChars(s)[k] == [s[k]]
  {
    if s != [] {
      KeptCharsAll(s[1..]);
      var r := KeptChars(s);
      assert r == [[s[0]]] + KeptChars(s[1..]);
      forall k | 0 <= k < |s|
        ensures r[k] == [s[k]]
      {
        if k > 0 {
          assert r[k] == KeptChars(s[1..])[k - 1] && s[1..][k - 1] == s[k];
        }
      }
    }
  }

  /**
   * As written, one path of two or more characters, with no comma and no
   * whitespace, does not come back as itself: it comes back as its characters.
   */
  lemma OnePathShattered(path: string)
    requires |path| >= 2
    requires forall k :: 0 <= k < |path| ==> path[k] != ',' && !IsSpace(path[k])
    ensures |FallbackAsWritten(path)| == |path| && FallbackAsWritten(path) != [path]
  {
    FallbackKeepsSingleChars(path);
    KeptCharsAll(path);
    assert |FallbackAsWritten(path)[0]| == 1;
  }

  /**
   * `coerce_paths` as written: a list comes back unchanged; text that the
   * JSON parser reads as a list gives that list; any other text goes through
   * the fallback, which leaves only its single non-comma, non-space characters.
   */
  function CoercePaths(output: ModelOutput, parseJson: string -> Option<seq<string>>): (r: seq<string>)
    ensures output.ListOutput? ==> r == output.items
    ensures output.TextOutput? && parseJson(output.text).Some? ==> r == parseJson(output.text).value
    ensures output.TextOutput? && parseJson(output.text).None? ==> r == KeptChars(output.text)
  {
    match output
    case ListOutput(items) => items
    case TextOutput(text) =>
      match parseJson(text)
      case Some(list) => list
      case None =>
        FallbackKeepsSingleChars(text);
        FallbackAsWritten(text)
  }

  /** `s.replace('\n', ',')`. */
  function NewlinesToCommas(s: string): (r: string)
    ensures |r| == |s| && '\n' !in r
    ensures forall k :: 0 <= k < |s| ==> r[k] == (if s[k] == '\n' then ',' else s[k])
  {
    seq(|s|, k requires 0 <= k < |s| => if s[k] == '\n' then ',' else s[k])
  }

  /** The fallback with commas and newlines both separating paths. */
  function FallbackCorrected(text: string): (r: seq<string>)
    ensures forall k :: 0 <= k < |r| ==> r[k] != [] && Stripped(r[k]) && ',' !in r[k] && '\n' !in r[k]
  {
    var parts := Split(NewlinesToCommas(text), ',');
    SplitAvoids(NewlinesToCommas(text), ',', '\n');
    CleanAvoids(parts, ',');
    CleanAvoids(parts, '\n');
    Clean(parts)
  }

  /** A character missing from `s` is missing from every piece of it. */
  lemma {:induction false} SplitAvoids(s: string, c: char, d: char)
    requires d !in s
    ensures forall k :: 0 <= k < |Split(s, c)| ==> d !in Split(s, c)[k]
  {
    if s != [] {
      assert forall x :: x in s[1..] ==> x in s;
      SplitAvoids(s[1..], c, d);
    }
  }

  /** A character missing from every part is missing from every cleaned part. */
  lemma {:induction false} CleanAvoids(parts: seq<string>, d: char)
    requires forall k :: 0 <= k < |parts| ==> d !in parts[k]
    ensures forall k :: 0 <= k < |Clean(parts)| ==> d !in Clean(parts)[k]
  {
    if parts != [] {
      CleanAvoids(parts[1..], d);
      StripAvoids(parts[0], d);
    }
  }

  /** Stripping adds no character. */
  lemma StripAvoids(s: string, d: char)
    requires d !in s
    ensures d !in Strip(s)
  {
    StripIsSlice(s);
    SliceAvoids(s, LeadingSpaces(s), LeadingSpaces(s) + |Strip(s)|, d);
  }

  /** `coerce_paths` with the corrected fallback. */
  function CoercePathsCorrected(output: ModelOutput, parseJson: string -> Option<seq<string>>): (r: seq<string>)
    ensures output.ListOutput? ==> r == output.items
    ensures output.TextOutput? && parseJson(output.text).Some? ==> r == parseJson(output.text).value
    ensures output.TextOutput? && parseJson(output.text).None? ==> r == FallbackCorrected(output.text)
  {
    match output
    case ListOutput(items) => items
    case TextOutput(text) =>
      match parseJson(text)
      case Some(list) => list
      case None => FallbackCorrected(text)
  }

  /** Replacing newlines by commas works piece by piece. */
  lemma NewlinesToCommasAppend(a: string, b: string)
    ensures NewlinesToCommas(a + b) == NewlinesToCommas(a) + NewlinesToCommas(b)
  {
    var lhs := NewlinesToCommas(a + b);
    var rhs := NewlinesToCommas(a) + NewlinesToCommas(b);
    assert forall k :: 0 <= k < |a| ==> lhs[k] == rhs[k];
    assert forall k :: |a| <= k < |a + b| ==> (a + b)[k] == b[k - |a|] && lhs[k] == rhs[k];
  }

  /** Replacing newlines by commas turns a newline-joined list into the comma-joined one. */
  lemma {:induction false} NewlinesToCommasJoin(items: seq<string>, sep: char)
    requires sep == ',' || sep == '\n'
    requires forall k :: 0 <= k < |items| ==> '\n' !in items[k]
    ensures NewlinesToCommas(Join(items, [sep])) == Join(items, [','])
  {
    if |items| == 1 {
      assert NewlinesToCommas(items[0]) == items[0];
    } else if |items| > 1 {
      NewlinesToCommasJoin(items[1..], sep);
      var tail := Join(items[1..], [sep]);
      assert Join(items, [sep]) == items[0] + [sep] + tail;
      assert Join(items, [',']) == items[0] + [','] + Join(items[1..], [',']);
      NewlinesToCommasAppend(items[0] + [sep], tail);
      NewlinesToCommasAppend(items[0], [sep]);
      assert NewlinesToCommas([sep]) == [','];
      assert NewlinesToCommas(items[0]) == items[0];
    }
  }

  /**
   * Corrected, a list of clean paths written with commas or with newlines
   * between them comes back as that list.
   */
  lemma FallbackRoundTrip(items: seq<string>, sep: char)
    requires sep == ',' || sep == '\n'
    requires |items| >= 1
    requires forall k :: 0 <= k < |items| ==> items[k] != [] && Stripped(items[k])
    requires forall k :: 0 <= k < |items| ==> ',' !in items[k] && '\n' !in items[k]
    ensures FallbackCorrected(Join(items, [sep])) == items
  {
    NewlinesToCommasJoin(items, sep);
    SplitJoin(items, ',');
    CleanKeepsClean(items);
  }
}
