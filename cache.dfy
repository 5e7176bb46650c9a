/**
 * The change cache (`filter_files_by_cache` in config.py): split candidate
 * files into changed and unchanged ones by comparing each file's current
 * content digest with the digest the previous run stored, and build the
 * table to store for the next run.
 */
module Cache {
  import opened Seqs

  /** The files under the repository root, by repo-relative path: a path exists exactly when it is a key. */
  type Disk = map<string, seq<bv8>>

  /** A path's stored digest equals its current one: `repo_cache.get(path) == current_hash`. */
  predicate Unchanged(path: string, repoCache: map<string, string>, disk: Disk, digest: seq<bv8> -> string)
    requires path in disk
  {
    path in repoCache && repoCache[path] == digest(disk[path])
  }

  /** The candidates that exist on disk, in order. */
  function Existing(files: seq<string>, disk: Disk): seq<string>
  {
    if files == [] then []
    else
      var last := files[|files| - 1];
      Existing(files[..|files| - 1], disk) + (if last in disk then [last] else [])
  }

  /** The existing candidates whose content changed (or that are new), in order. */
  function Changed(files: seq<string>, repoCache: map<string, string>, disk: Disk, digest: seq<bv8> -> string): seq<string>
  {
    if files == [] then []
    else
      var last := files[|files| - 1];
      Changed(files[..|files| - 1], repoCache, disk, digest)
        + (if last in disk && !Unchanged(last, repoCache, disk, digest) then [last] else [])
  }

  /** The existing candidates whose content is as the cache recorded it, in order. */
  function Kept(files: seq<string>, repoCache: map<string, string>, disk: Disk, digest: seq<bv8> -> string): seq<string>
  {
    if files == [] then []
    else
      var last := files[|files| - 1];
      Kept(files[..|files| - 1], repoCache, disk, digest)
        + (if last in disk && Unchanged(last, repoCache, disk, digest) then [last] else [])
  }

  /** The table for the next run: each existing candidate with its current digest. */
  function Fresh(files: seq<string>, disk: Disk, digest: seq<bv8> -> string): map<string, string>
  {
    if files == [] then map[]
    else
      var last := files[|files| - 1];
      var before := Fresh(files[..|files| - 1], disk, digest);
      if last in disk then before[last := digest(disk[last])] else before
  }

  /**
   * `filter_files_by_cache`. The digest of a file is `digest` applied to
   * its content. `repoIdentifier` is taken and never used, as in the source.
   * The caller's `repoCache` is a value here, so it cannot be changed.
   */
  method FilterFilesByCache(repoIdentifier: string, allFiles: seq<string>, repoCache: map<string, string>,
                            disk: Disk, digest: seq<bv8> -> string)
    returns (filesToAnalyze: seq<string>, skippedFiles: seq<string>, newRepoCache: map<string, string>)
    ensures filesToAnalyze == Changed(allFiles, repoCache, disk, digest)
    ensures skippedFiles == Kept(allFiles, repoCache, disk, digest)
    ensures newRepoCache == Fresh(allFiles, disk, digest)
  {
    filesToAnalyze, skippedFiles, newRepoCache := [], [], map[];
    for i := 0 to |allFiles|
      invariant filesToAnalyze == Changed(allFiles[..i], repoCache, disk, digest)
      invariant skippedFiles == Kept(allFiles[..i], repoCache, disk, digest)
      invariant newRepoCache == Fresh(allFiles[..i], disk, digest)
    {
      assert allFiles[..i + 1][..i] == allFiles[..i];
      var filePath := allFiles[i];
      if filePath !in disk {
        continue;
      }
      var currentHash := digest(disk[filePath]);
      newRepoCache := newRepoCache[filePath := currentHash];
      if filePath in repoCache && repoCache[filePath] == currentHash {
        skippedFiles := skippedFiles + [filePath];
      } else {
        filesToAnalyze := filesToAnalyze + [filePath];
      }
    }
    assert allFiles[..|allFiles|] == allFiles;
  }

  /**
   * Each existing candidate is analysed or skipped, never both, and a
   * missing one is neither: skipped exactly when the cache holds its
   * current digest.
   */
  lemma {:induction false} Partition(files: seq<string>, repoCache: map<string, string>, disk: Disk,
                                     digest: seq<bv8> -> string, p: string)
    ensures p in Changed(files, repoCache, disk, digest) <==> p in files && p in disk && !Unchanged(p, repoCache, disk, digest)
    ensures p in Kept(files, repoCache, disk, digest) <==> p in files && p in disk && Unchanged(p, repoCache, disk, digest)
    ensures p in Existing(files, disk) <==> p in files && p in disk
    ensures |Changed(files, repoCache, disk, digest)| + |Kept(files, repoCache, disk, digest)| == |Existing(files, disk)|
  {
    if files != [] {
      var init := files[..|files| - 1];
      assert files == init + [files[|files| - 1]];
      Partition(init, repoCache, disk, digest, p);
    }
  }

  /** The table for the next run maps exactly the existing candidates, each to its current digest. */
  lemma {:induction false} FreshTable(files: seq<string>, disk: Disk, digest: seq<bv8> -> string, p: string)
    ensures p in Fresh(files, disk, digest) <==> p in files && p in disk
    ensures p in Fresh(files, disk, digest) ==> Fresh(files, disk, digest)[p] == digest(disk[p])
  {
    if files != [] {
      var init := files[..|files| - 1];
      assert files == init + [files[|files| - 1]];
      FreshTable(init, disk, digest, p);
    }
  }

  /** All three results keep the candidates' order: two stretches of candidates are handled one after the other. */
  lemma {:induction false} OrderKept(a: seq<string>, b: seq<string>, repoCache: map<string, string>, disk: Disk,
                                     digest: seq<bv8> -> string)
    ensures Changed(a + b, repoCache, disk, digest) == Changed(a, repoCache, disk, digest) + Changed(b, repoCache, disk, digest)
    ensures Kept(a + b, repoCache, disk, digest) == Kept(a, repoCache, disk, digest) + Kept(b, repoCache, disk, digest)
  {
    if b == [] {
      assert a + b == a;
    } else {
      var init := b[..|b| - 1];
      var last := b[|b| - 1];
      AppendInit(a, b);
      OrderKept(a, init, repoCache, disk, digest);
      var changed := if last in disk && !Unchanged(last, repoCache, disk, digest) then [last] else [];
      var kept := if last in disk && Unchanged(last, repoCache, disk, digest) then [last] else [];
      AppendAssoc(Changed(a, repoCache, disk, digest), Changed(init, repoCache, disk, digest), changed);
      AppendAssoc(Kept(a, repoCache, disk, digest), Kept(init, repoCache, disk, digest), kept);
    }
  }

  /** With a cache that holds every existing candidate's current digest, nothing is analysed and everything existing is skipped. */
  lemma {:induction false} AllCurrentAllSkipped(files: seq<string>, repoCache: map<string, string>, disk: Disk,
                                                digest: seq<bv8> -> string)
    requires forall p :: p in files && p in disk ==> p in repoCache && repoCache[p] == digest(disk[p])
    ensures Changed(files, repoCache, disk, digest) == []
    ensures Kept(files, repoCache, disk, digest) == Existing(files, disk)
  {
    if files != [] {
      var init := files[..|files| - 1];
      assert forall p :: p in init ==> p in files;
      AllCurrentAllSkipped(init, repoCache, disk, digest);
    }
  }

  /**
   * Re-running on unchanged contents with the table the run returned:
   * every existing candidate is skipped and none is analysed.
   */
  lemma RerunSkipsEverything(files: seq<string>, disk: Disk, digest: seq<bv8> -> string)
    ensures Changed(files, Fresh(files, disk, digest), disk, digest) == []
    ensures Kept(files, Fresh(files, disk, digest), disk, digest) == Existing(files, disk)
  {
    forall p | p in files && p in disk
      ensures p in Fresh(files, disk, digest) && Fresh(files, disk, digest)[p] == digest(disk[p])
    {
      FreshTable(files, disk, digest, p);
    }
    AllCurrentAllSkipped(files, Fresh(files, disk, digest), disk, digest);
  }
}
