/**
 * The rule registry (agent/rules.py): every sub-directory of the rules
 * directory that holds both `config.yaml` and `prompt.md` describes one
 * language; the registry maps each lower-cased extension the language
 * declares (and the optional whitelist admits) to that language's rule.
 */
module Rules {
  import opened Wrappers
  import opened Strings
  import opened Seqs

  /** `LanguageRule`: a language, its extensions as declared, and the policy text. */
  datatype LanguageRule = LanguageRule(language: string, extensions: seq<string>, prompt: string)

  /**
   * One entry of the rules directory's listing, with what the source reads
   * from it: whether it is a directory, whether `config.yaml` and `prompt.md`
   * exist in it, the `language` and `extensions` keys of the parsed
   * `config.yaml` (absent keys as `None`) and the text of `prompt.md`.
   */
  datatype RuleDir = RuleDir(
    name: string,
    isDir: bool,
    hasConfig: bool,
    hasPrompt: bool,
    language: Option<string>,
    extensions: Option<seq<string>>,
    promptText: string)

  /** A listing entry the loader turns into a rule. */
  predicate IsRuleSource(d: RuleDir)
  {
    d.isDir && d.hasConfig && d.hasPrompt
  }

  /** The rule built from a rule directory: language defaulting to the directory's name, extensions to none, prompt stripped. */
  function RuleOf(d: RuleDir): (r: LanguageRule)
    ensures d.language.None? ==> r.language == d.name
    ensures d.language.Some? ==> r.language == d.language.value
    ensures d.extensions.None? ==> r.extensions == []
    ensures d.extensions.Some? ==> r.extensions == d.extensions.value
    ensures r.prompt == [] || (!IsSpace(r.prompt[0]) && !IsSpace(r.prompt[|r.prompt| - 1]))
    ensures r.prompt == Strip(d.promptText)
  {
    LanguageRule(d.language.GetOr(d.name), d.extensions.GetOr([]), Strip(d.promptText))
  }

  /** Whether the optional whitelist lets a lower-cased extension in (`None` lets every one in). */
  predicate Admits(allowed: Option<set<string>>, key: string)
  {
    allowed.None? || key in allowed.value
  }

  /** Some extension in `exts` lower-cases to `key`. */
  predicate LowersTo(exts: seq<string>, key: string)
  {
    exists j :: 0 <= j < |exts| && Lower(exts[j]) == key
  }

  /** Rule directory `d` puts `key` in the map when the whitelist admits it. */
  predicate Declares(d: RuleDir, key: string)
  {
    IsRuleSource(d) && LowersTo(RuleOf(d).extensions, key)
  }

  /** The inner loop: `rules_map[ext.lower()] = rule` for each admitted extension, in order. */
  function AddExtensions(m: map<string, LanguageRule>, rule: LanguageRule, exts: seq<string>,
                         allowed: Option<set<string>>): map<string, LanguageRule>
  {
    if exts == [] then m
    else
      var before := AddExtensions(m, rule, exts[..|exts| - 1], allowed);
      var key := Lower(exts[|exts| - 1]);
      if Admits(allowed, key) then before[key := rule] else before
  }

  /** The outer loop over the listing, one entry after another. */
  function LoadAll(dirs: seq<RuleDir>, allowed: Option<set<string>>): map<string, LanguageRule>
  {
    if dirs == [] then map[]
    else
      var before := LoadAll(dirs[..|dirs| - 1], allowed);
      var d := dirs[|dirs| - 1];
      if IsRuleSource(d) then AddExtensions(before, RuleOf(d), RuleOf(d).extensions, allowed) else before
  }

  /**
   * `load_rules`: the empty map when the rules path is not a directory,
   * otherwise the merge of the listing's rule directories in listing order.
   */
  method LoadRules(rulesDirIsDir: bool, dirs: seq<RuleDir>, allowed: Option<set<string>>)
    returns (rulesMap: map<string, LanguageRule>)
    ensures !rulesDirIsDir ==> rulesMap == map[]
    ensures rulesDirIsDir ==> rulesMap == LoadAll(dirs, allowed)
  {
    rulesMap := map[];
    if !rulesDirIsDir {
      return;
    }
    for i := 0 to |dirs|
      invariant rulesMap == LoadAll(dirs[..i], allowed)
    {
      assert dirs[..i + 1][..i] == dirs[..i];
      var d := dirs[i];
      if !d.isDir {
        continue;
      }
      if !d.hasConfig || !d.hasPrompt {
        continue;
      }
      var rule := RuleOf(d);
      ghost var start := rulesMap;
      for j := 0 to |rule.extensions|
        invariant rulesMap == AddExtensions(start, rule, rule.extensions[..j], allowed)
      {
        assert rule.extensions[..j + 1][..j] == rule.extensions[..j];
        var key := Lower(rule.extensions[j]);
        if allowed.None? {
          rulesMap := rulesMap[key := rule];
        } else if key in allowed.value {
          rulesMap := rulesMap[key := rule];
        }
      }
      assert rule.extensions[..|rule.extensions|] == rule.extensions;
    }
    assert dirs[..|dirs|] == dirs;
  }

  /** What the inner loop adds: each admitted extension, lower-cased, maps to the rule; every other key is as before. */
  lemma {:induction false} AddExtensionsAt(m: map<string, LanguageRule>, rule: LanguageRule, exts: seq<string>,
                                           allowed: Option<set<string>>, key: string)
    ensures key in AddExtensions(m, rule, exts, allowed) <==> key in m || (Admits(allowed, key) && LowersTo(exts, key))
    ensures Admits(allowed, key) && LowersTo(exts, key) ==> AddExtensions(m, rule, exts, allowed)[key] == rule
    ensures !(Admits(allowed, key) && LowersTo(exts, key)) && key in m ==> AddExtensions(m, rule, exts, allowed)[key] == m[key]
  {
    if exts != [] {
      var init := exts[..|exts| - 1];
      AddExtensionsAt(m, rule, init, allowed, key);
      assert LowersTo(exts, key) <==> LowersTo(init, key) || Lower(exts[|exts| - 1]) == key by {
        if LowersTo(exts, key) {
          var j :| 0 <= j < |exts| && Lower(exts[j]) == key;
          if j < |exts| - 1 {
            assert init[j] == exts[j];
          }
        }
        if LowersTo(init, key) {
          var j :| 0 <= j < |init| && Lower(init[j]) == key;
          assert exts[j] == init[j];
        }
      }
    }
  }

  /**
   * Appending one entry to the listing: the keys it declares and the
   * whitelist admits now map to its rule (one rule for all of them), and
   * every other key keeps its value.
   */
  lemma LoadAllAppend(dirs: seq<RuleDir>, d: RuleDir, allowed: Option<set<string>>, key: string)
    ensures Declares(d, key) && Admits(allowed, key) ==>
              key in LoadAll(dirs + [d], allowed) && LoadAll(dirs + [d], allowed)[key] == RuleOf(d)
    ensures !(Declares(d, key) && Admits(allowed, key)) ==>
              (key in LoadAll(dirs + [d], allowed) <==> key in LoadAll(dirs, allowed))
              && (key in LoadAll(dirs, allowed) ==> LoadAll(dirs + [d], allowed)[key] == LoadAll(dirs, allowed)[key])
  {
    var all := dirs + [d];
    assert all[..|all| - 1] == dirs;
    AddExtensionsAt(LoadAll(dirs, allowed), RuleOf(d), RuleOf(d).extensions, allowed, key);
  }

  /**
   * Every key is the lower-cased form of an extension that some rule
   * directory declares, and the whitelist admits it; conversely every
   * admitted, declared extension is a key.
   */
  lemma {:induction false} LoadAllKeys(dirs: seq<RuleDir>, allowed: Option<set<string>>, key: string)
    ensures key in LoadAll(dirs, allowed) <==> Admits(allowed, key) && DeclaredBy(dirs, key)
  {
    if dirs != [] {
      var init := dirs[..|dirs| - 1];
      var d := dirs[|dirs| - 1];
      SplitLast(dirs);
      LoadAllKeys(init, allowed, key);
      LoadAllAppend(init, d, allowed, key);
      DeclaredByAppend(init, d, key);
    }
  }

  /** Some rule directory of `dirs` declares `key`. */
  predicate DeclaredBy(dirs: seq<RuleDir>, key: string)
  {
    exists i :: 0 <= i < |dirs| && Declares(dirs[i], key)
  }

  lemma DeclaredByAppend(dirs: seq<RuleDir>, d: RuleDir, key: string)
    ensures DeclaredBy(dirs + [d], key) <==> DeclaredBy(dirs, key) || Declares(d, key)
  {
    var all := dirs + [d];
    if DeclaredBy(all, key) {
      var i :| 0 <= i < |all| && Declares(all[i], key);
      if i < |dirs| {
        assert all[i] == dirs[i];
      }
    }
    if DeclaredBy(dirs, key) {
      var i :| 0 <= i < |dirs| && Declares(dirs[i], key);
      assert all[i] == dirs[i];
    }
    if Declares(d, key) {
      assert all[|dirs|] == d;
    }
  }

  /** Every key of the registry is already lower-case. */
  lemma KeysLowerCase(dirs: seq<RuleDir>, allowed: Option<set<string>>, key: string)
    requires key in LoadAll(dirs, allowed)
    ensures Lower(key) == key
  {
    LoadAllKeys(dirs, allowed, key);
    var i :| 0 <= i < |dirs| && Declares(dirs[i], key);
    var exts := RuleOf(dirs[i]).extensions;
    var j :| 0 <= j < |exts| && Lower(exts[j]) == key;
    LowerIdempotent(exts[j]);
  }

  /** With a whitelist, every key is whitelisted. */
  lemma KeysWhitelisted(dirs: seq<RuleDir>, allowed: set<string>, key: string)
    requires key in LoadAll(dirs, Some(allowed))
    ensures key in allowed
  {
    LoadAllKeys(dirs, Some(allowed), key);
  }

  /** Without a whitelist, every extension of every rule directory appears, lower-cased, as a key. */
  lemma EveryDeclaredExtensionLoaded(dirs: seq<RuleDir>, i: int, j: int)
    requires 0 <= i < |dirs| && IsRuleSource(dirs[i])
    requires 0 <= j < |RuleOf(dirs[i]).extensions|
    ensures Lower(RuleOf(dirs[i]).extensions[j]) in LoadAll(dirs, None)
  {
    var key := Lower(RuleOf(dirs[i]).extensions[j]);
    assert Declares(dirs[i], key);
    LoadAllKeys(dirs, None, key);
  }

  /** Entries that are not rule directories add nothing: the registry of a listing without rule directories is empty. */
  lemma NoRuleSourceNoKeys(dirs: seq<RuleDir>, allowed: Option<set<string>>)
    requires forall i :: 0 <= i < |dirs| ==> !IsRuleSource(dirs[i])
    ensures LoadAll(dirs, allowed) == map[]
  {
    forall key | key in LoadAll(dirs, allowed) ensures false {
      LoadAllKeys(dirs, allowed, key);
    }
  }

  /** When several rule directories declare the same extension, the one listed last wins. */
  lemma {:induction false} LastDeclarationWins(dirs: seq<RuleDir>, allowed: Option<set<string>>, i: int, key: string)
    requires 0 <= i < |dirs| && Declares(dirs[i], key) && Admits(allowed, key)
    requires forall k :: i < k < |dirs| ==> !Declares(dirs[k], key)
    ensures key in LoadAll(dirs, allowed) && LoadAll(dirs, allowed)[key] == RuleOf(dirs[i])
  {
    var init := dirs[..|dirs| - 1];
    var d := dirs[|dirs| - 1];
    SplitLast(dirs);
    LoadAllAppend(init, d, allowed, key);
    if i < |dirs| - 1 {
      assert init[i] == dirs[i];
      LastDeclarationWins(init, allowed, i, key);
    }
  }
}
