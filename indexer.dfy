/**
 * The file indexer (`build_file_index` in main.py): walk every path under
 * the repository root, drop pruned directories and ignored files, and split
 * the remaining files by the lower-cased suffix of their name.
 */
module Indexer {
  import opened Strings
  import opened Seqs

  /** One path yielded by the recursive walk: its components relative to the root, and whether it is a regular file. */
  datatype Entry = Entry(parts: seq<string>, isFile: bool)

  /** Components as a file system yields them: at least one, each non-empty and without '/'. */
  predicate WellFormed(e: Entry)
  {
    |e.parts| >= 1 && forall k :: 0 <= k < |e.parts| ==> e.parts[k] != "" && '/' !in e.parts[k]
  }

  /** pathlib's `name`: the last component. */
  function Name(e: Entry): string
  {
    if e.parts == [] then "" else e.parts[|e.parts| - 1]
  }

  /** pathlib's `as_posix()` of the relative path. */
  function Posix(e: Entry): string
  {
    Join(e.parts, "/")
  }

  /**
   * pathlib's `suffix` of a name: from its last '.' on, provided that dot is
   * neither the first nor the last character; otherwise empty.
   */
  function Suffix(name: string): (r: string)
    ensures r != "" ==> 2 <= |r| < |name| && r == name[|name| - |r|..]
    ensures r != "" ==> r[0] == '.' && '.' !in r[1..]
    ensures r == "" <==> !(0 < RFind(name, '.') < |name| - 1)
  {
    var i := RFind(name, '.');
    if 0 < i < |name| - 1 then name[i..] else ""
  }

  /** Where a walked path ends up. */
  datatype Placement = Excluded | InIndex | OutOfIndex

  /** Some component of the relative path, at any depth, is an ignored directory name. */
  predicate Pruned(e: Entry, ignoredDirs: set<string>)
  {
    exists k :: 0 <= k < |e.parts| && e.parts[k] in ignoredDirs
  }

  /** The key a file is classified by: its suffix, lower-cased. */
  function ExtKey(name: string): string
  {
    Lower(Suffix(name))
  }

  /** The decision the loop body takes for one walked path. */
  function Place(e: Entry, allowedExts: set<string>, ignoredDirs: set<string>, ignoredFiles: set<string>): Placement
  {
    if Pruned(e, ignoredDirs) then Excluded
    else if !e.isFile then Excluded
    else if Name(e) in ignoredFiles then Excluded
    else if ExtKey(Name(e)) in allowedExts then InIndex
    else OutOfIndex
  }

  /** The POSIX paths of the walked entries placed in `where`, in walk order. */
  function Listed(entries: seq<Entry>, where: Placement,
                  allowedExts: set<string>, ignoredDirs: set<string>, ignoredFiles: set<string>): seq<string>
  {
    if entries == [] then []
    else
      var before := Listed(entries[..|entries| - 1], where, allowedExts, ignoredDirs, ignoredFiles);
      var e := entries[|entries| - 1];
      if Place(e, allowedExts, ignoredDirs, ignoredFiles) == where then before + [Posix(e)] else before
  }

  /** `build_file_index`: the indexed and the non-indexed files, each in walk order. */
  method BuildFileIndex(entries: seq<Entry>, allowedExts: set<string>, ignoredDirs: set<string>, ignoredFiles: set<string>)
    returns (indexedFiles: seq<string>, nonIndexedFiles: seq<string>)
    ensures indexedFiles == Listed(entries, InIndex, allowedExts, ignoredDirs, ignoredFiles)
    ensures nonIndexedFiles == Listed(entries, OutOfIndex, allowedExts, ignoredDirs, ignoredFiles)
  {
    indexedFiles, nonIndexedFiles := [], [];
    for i := 0 to |entries|
      invariant indexedFiles == Listed(entries[..i], InIndex, allowedExts, ignoredDirs, ignoredFiles)
      invariant nonIndexedFiles == Listed(entries[..i], OutOfIndex, allowedExts, ignoredDirs, ignoredFiles)
    {
      assert entries[..i + 1][..i] == entries[..i];
      var p := entries[i];
      if exists k :: 0 <= k < |p.parts| && p.parts[k] in ignoredDirs {
        continue;
      }
      if p.isFile {
        if Name(p) in ignoredFiles {
          continue;
        }
        var pathStr := Posix(p);
        if Lower(Suffix(Name(p))) in allowedExts {
          indexedFiles := indexedFiles + [pathStr];
        } else {
          nonIndexedFiles := nonIndexedFiles + [pathStr];
        }
      }
    }
    assert entries[..|entries|] == entries;
  }

  /** The walk's order is kept: indexing two stretches of the walk lists the first one's paths first. */
  lemma {:induction false} ListedAppend(a: seq<Entry>, b: seq<Entry>, where: Placement,
                                        allowedExts: set<string>, ignoredDirs: set<string>, ignoredFiles: set<string>)
    ensures Listed(a + b, where, allowedExts, ignoredDirs, ignoredFiles)
         == Listed(a, where, allowedExts, ignoredDirs, ignoredFiles) + Listed(b, where, allowedExts, ignoredDirs, ignoredFiles)
  {
    if b == [] {
      assert a + b == a;
    } else {
      var init := b[..|b| - 1];
      var e := b[|b| - 1];
      AppendInit(a, b);
      ListedAppend(a, init, where, allowedExts, ignoredDirs, ignoredFiles);
      var extra := if Place(e, allowedExts, ignoredDirs, ignoredFiles) == where then [Posix(e)] else [];
      AppendAssoc(Listed(a, where, allowedExts, ignoredDirs, ignoredFiles),
                  Listed(init, where, allowedExts, ignoredDirs, ignoredFiles), extra);
    }
  }

  /** Some walked entry with path `p` is placed in `where`. */
  predicate PlacedAt(entries: seq<Entry>, where: Placement, p: string,
                     allowedExts: set<string>, ignoredDirs: set<string>, ignoredFiles: set<string>)
  {
    exists i :: 0 <= i < |entries| && Posix(entries[i]) == p
                && Place(entries[i], allowedExts, ignoredDirs, ignoredFiles) == where
  }

  lemma PlacedAtAppend(entries: seq<Entry>, e: Entry, where: Placement, p: string,
                       allowedExts: set<string>, ignoredDirs: set<string>, ignoredFiles: set<string>)
    ensures PlacedAt(entries + [e], where, p, allowedExts, ignoredDirs, ignoredFiles) <==>
              PlacedAt(entries, where, p, allowedExts, ignoredDirs, ignoredFiles)
              || (Posix(e) == p && Place(e, allowedExts, ignoredDirs, ignoredFiles) == where)
  {
    var all := entries + [e];
    if PlacedAt(all, where, p, allowedExts, ignoredDirs, ignoredFiles) {
      var i :| 0 <= i < |all| && Posix(all[i]) == p && Place(all[i], allowedExts, ignoredDirs, ignoredFiles) == where;
      if i < |entries| {
        assert all[i] == entries[i];
      }
    }
    if PlacedAt(entries, where, p, allowedExts, ignoredDirs, ignoredFiles) {
      var i :| 0 <= i < |entries| && Posix(entries[i]) == p && Place(entries[i], allowedExts, ignoredDirs, ignoredFiles) == where;
      assert all[i] == entries[i];
    }
    if Posix(e) == p && Place(e, allowedExts, ignoredDirs, ignoredFiles) == where {
      assert all[|entries|] == e;
    }
  }

  /** A path is listed in `where` exactly when some walked entry with that path is placed there. */
  lemma {:induction false} ListedMember(entries: seq<Entry>, where: Placement, p: string,
                                        allowedExts: set<string>, ignoredDirs: set<string>, ignoredFiles: set<string>)
    ensures p in Listed(entries, where, allowedExts, ignoredDirs, ignoredFiles) <==>
              PlacedAt(entries, where, p, allowedExts, ignoredDirs, ignoredFiles)
  {
    if entries != [] {
      var init := entries[..|entries| - 1];
      var e := entries[|entries| - 1];
      SplitLast(entries);
      ListedMember(init, where, p, allowedExts, ignoredDirs, ignoredFiles);
      PlacedAtAppend(init, e, where, p, allowedExts, ignoredDirs, ignoredFiles);
    }
  }

  /** Every listed path is that of a walked regular file whose name is not ignored: directories are never listed. */
  lemma ListedAreFiles(entries: seq<Entry>, where: Placement, p: string,
                       allowedExts: set<string>, ignoredDirs: set<string>, ignoredFiles: set<string>)
    requires where != Excluded
    requires p in Listed(entries, where, allowedExts, ignoredDirs, ignoredFiles)
    ensures exists i :: 0 <= i < |entries| && Posix(entries[i]) == p && entries[i].isFile && Name(entries[i]) !in ignoredFiles
  {
    ListedMember(entries, where, p, allowedExts, ignoredDirs, ignoredFiles);
  }

  /**
   * What a listed path says about itself, read back from the string: none
   * of its '/'-separated components is an ignored directory, its last
   * component is not an ignored file, and its lower-cased suffix is
   * whitelisted exactly when it is in the index.
   */
  lemma ListedPathClean(entries: seq<Entry>, where: Placement, p: string,
                        allowedExts: set<string>, ignoredDirs: set<string>, ignoredFiles: set<string>)
    requires forall i :: 0 <= i < |entries| ==> WellFormed(entries[i])
    requires where != Excluded
    requires p in Listed(entries, where, allowedExts, ignoredDirs, ignoredFiles)
    ensures forall k :: 0 <= k < |Split(p, '/')| ==> Split(p, '/')[k] !in ignoredDirs
    ensures LastPiece(p, '/') !in ignoredFiles
    ensures ExtKey(LastPiece(p, '/')) in allowedExts <==> where == InIndex
  {
    ListedMember(entries, where, p, allowedExts, ignoredDirs, ignoredFiles);
    var i :| 0 <= i < |entries| && Posix(entries[i]) == p
             && Place(entries[i], allowedExts, ignoredDirs, ignoredFiles) == where;
    PlacedPathClean(entries[i], where, allowedExts, ignoredDirs, ignoredFiles);
  }

  /** What one placed entry's path says about itself, read back from the string. */
  lemma PlacedPathClean(e: Entry, where: Placement, allowedExts: set<string>, ignoredDirs: set<string>, ignoredFiles: set<string>)
    requires WellFormed(e)
    requires where != Excluded && Place(e, allowedExts, ignoredDirs, ignoredFiles) == where
    ensures forall k :: 0 <= k < |Split(Posix(e), '/')| ==> Split(Posix(e), '/')[k] !in ignoredDirs
    ensures LastPiece(Posix(e), '/') !in ignoredFiles
    ensures ExtKey(LastPiece(Posix(e), '/')) in allowedExts <==> where == InIndex
  {
    SplitJoin(e.parts, '/');
    LastPieceOfJoin(e.parts, '/');
    assert LastPiece(Posix(e), '/') == Name(e);
    assert !Pruned(e, ignoredDirs);
  }

  /** No path is both indexed and non-indexed. */
  lemma IndexDisjoint(entries: seq<Entry>, p: string,
                      allowedExts: set<string>, ignoredDirs: set<string>, ignoredFiles: set<string>)
    requires forall i :: 0 <= i < |entries| ==> WellFormed(entries[i])
    ensures !(p in Listed(entries, InIndex, allowedExts, ignoredDirs, ignoredFiles)
              && p in Listed(entries, OutOfIndex, allowedExts, ignoredDirs, ignoredFiles))
  {
    if p in Listed(entries, InIndex, allowedExts, ignoredDirs, ignoredFiles) {
      ListedPathClean(entries, InIndex, p, allowedExts, ignoredDirs, ignoredFiles);
      if p in Listed(entries, OutOfIndex, allowedExts, ignoredDirs, ignoredFiles) {
        ListedPathClean(entries, OutOfIndex, p, allowedExts, ignoredDirs, ignoredFiles);
      }
    }
  }

  /** A pruned path, or one under a pruned directory at any depth, is in neither list. */
  lemma PrunedNeverListed(entries: seq<Entry>, i: int, k: int, where: Placement,
                          allowedExts: set<string>, ignoredDirs: set<string>, ignoredFiles: set<string>)
    requires forall j :: 0 <= j < |entries| ==> WellFormed(entries[j])
    requires 0 <= i < |entries| && 0 <= k < |entries[i].parts| && entries[i].parts[k] in ignoredDirs
    requires where != Excluded
    ensures Posix(entries[i]) !in Listed(entries, where, allowedExts, ignoredDirs, ignoredFiles)
  {
    var p := Posix(entries[i]);
    if p in Listed(entries, where, allowedExts, ignoredDirs, ignoredFiles) {
      ListedPathClean(entries, where, p, allowedExts, ignoredDirs, ignoredFiles);
      SplitJoin(entries[i].parts, '/');
    }
  }

  /** Lower-casing commutes with taking pathlib's suffix. */
  lemma {:induction false} SuffixOfLower(name: string)
    ensures Lower(Suffix(name)) == Suffix(Lower(name))
  {
    RFindLower(name);
    var i := RFind(name, '.');
    if 0 < i < |name| - 1 {
      LowerDrop(name, i);
    }
  }

  lemma LowerDrop(s: string, i: int)
    requires 0 <= i <= |s|
    ensures Lower(s[i..]) == Lower(s)[i..]
  {
  }

  lemma {:induction false} RFindLower(s: string)
    ensures RFind(Lower(s), '.') == RFind(s, '.')
  {
    if s != [] {
      var init := s[..|s| - 1];
      assert Lower(s)[..|s| - 1] == Lower(init);
      LowerKeepsChar(s, |s| - 1, '.');
      RFindLower(init);
    }
  }

  /** Classification ignores case in the name: `FILE.JS` and `file.js` have the same key. */
  lemma ExtKeyCaseInsensitive(n1: string, n2: string)
    requires Lower(n1) == Lower(n2)
    ensures ExtKey(n1) == ExtKey(n2)
  {
    SuffixOfLower(n1);
    SuffixOfLower(n2);
  }

  /** Two surviving files whose names differ only in case land in the same list. */
  lemma PlacementCaseInsensitive(e1: Entry, e2: Entry, allowedExts: set<string>, ignoredDirs: set<string>, ignoredFiles: set<string>)
    requires Place(e1, allowedExts, ignoredDirs, ignoredFiles) != Excluded
    requires Place(e2, allowedExts, ignoredDirs, ignoredFiles) != Excluded
    requires Lower(Name(e1)) == Lower(Name(e2))
    ensures Place(e1, allowedExts, ignoredDirs, ignoredFiles) == Place(e2, allowedExts, ignoredDirs, ignoredFiles)
  {
    ExtKeyCaseInsensitive(Name(e1), Name(e2));
  }
}
