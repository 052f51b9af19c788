/**
 * `utils_sync_nvram_with_cfg`: copy the `name=value` lines of a configuration file
 * into NVRAM.  A pattern narrows the copy to the names that start with a prefix, or,
 * when the pattern starts with `!`, to the names that do not.  The file is the
 * sequence of lines the line reader yields (comments and line ends already
 * stripped); a file that cannot be opened is None.
 */
module SyncNvram {
  import opened Wrappers
  import CString
  import opened Nvram

  const ExitSuccess: int := 0
  const ExitFailure: int := 1

  /** How a pattern selects names: the prefix, and whether a leading `!` turns
      the test around. */
  datatype Filter = Filter(negative: bool, prefix: string)

  /** The filter the `pattern` argument gives; a NULL pattern has an empty prefix. */
  function FilterOf(pattern: Option<string>): Filter {
    if pattern.None? then Filter(false, "")
    else if |pattern.value| > 0 && pattern.value[0] == '!' then Filter(true, pattern.value[1..])
    else Filter(false, pattern.value)
  }

  /** The pattern that spells `f`. */
  function PatternOf(f: Filter): string {
    (if f.negative then "!" else "") + f.prefix
  }

  /** A pattern spells back the filter it gives, unless it names a positive
      prefix that itself starts with `!`, which no pattern can express. */
  lemma PatternRoundTrip(f: Filter)
    requires f.negative || |f.prefix| == 0 || f.prefix[0] != '!'
    ensures FilterOf(Some(PatternOf(f))) == f
  {
    if f.negative {
      assert PatternOf(f)[1..] == f.prefix;
    } else {
      assert PatternOf(f) == f.prefix;
    }
  }

  /** Whether a keyword is copied under `f`: every keyword when the prefix is
      empty, otherwise the ones it starts (or, negated, does not start). */
  predicate Selected(f: Filter, keyword: string) {
    |f.prefix| == 0 || (CString.IsPrefix(f.prefix, keyword) != f.negative)
  }

  /** A line cut at its first `=`: the keyword before it and the value after;
      None for a line without `=`. */
  function Cut(line: string): (r: Option<Pair>)
    ensures r.None? <==> '=' !in line
    ensures r.Some? ==> line == r.value.name + "=" + r.value.value && '=' !in r.value.name
  {
    CString.IndexOfMeaning(line, '=');
    match CString.IndexOf(line, '=')
    case None => None
    case Some(k) =>
      assert line == line[..k] + "=" + line[k + 1..];
      Some(Pair(line[..k], line[k + 1..]))
  }

  /** Cutting a joined line gives back its keyword and value; the value may hold
      further `=` characters. */
  lemma CutJoin(keyword: string, value: string)
    requires '=' !in keyword
    ensures Cut(keyword + "=" + value) == Some(Pair(keyword, value))
  {
    var line := keyword + "=" + value;
    CString.IndexOfJoin(keyword, '=', value);
    assert line[..|keyword|] == keyword && line[|keyword| + 1..] == value;
  }

  /** The set a line calls for under `f`, if any. */
  function LineSetting(f: Filter, line: string): seq<Pair> {
    match Cut(line)
    case None => []
    case Some(p) => if Selected(f, p.name) then [p] else []
  }

  /** The sets a file calls for under `f`, in line order. */
  function Settings(f: Filter, lines: seq<string>): (r: seq<Pair>)
    ensures |r| <= |lines|
    ensures forall j :: 0 <= j < |r| ==> Selected(f, r[j].name) && '=' !in r[j].name
  {
    if lines == [] then [] else LineSetting(f, lines[0]) + Settings(f, lines[1..])
  }

  /** The sets of two stretches of a file follow each other. */
  lemma {:induction false} SettingsAppend(f: Filter, a: seq<string>, b: seq<string>)
    ensures Settings(f, a + b) == Settings(f, a) + Settings(f, b)
    decreases |a|
  {
    if a == [] {
      assert a + b == b;
    } else {
      assert (a + b)[1..] == a[1..] + b;
      SettingsAppend(f, a[1..], b);
    }
  }

  /** A line without `=` calls for nothing, wherever it stands. */
  lemma IgnoredLine(f: Filter, a: seq<string>, line: string, b: seq<string>)
    requires '=' !in line
    ensures Settings(f, a + [line] + b) == Settings(f, a + b)
  {
    SettingsAppend(f, a + [line], b);
    SettingsAppend(f, a, [line]);
    SettingsAppend(f, a, b);
    assert Settings(f, [line]) == [];
    assert Settings(f, a + [line]) == Settings(f, a);
  }

  /** A set is called for exactly when some line cuts into it and its keyword is
      selected. */
  lemma {:induction false} SettingsMeaning(f: Filter, lines: seq<string>, p: Pair)
    ensures p in Settings(f, lines) <==> Selected(f, p.name) && exists i :: 0 <= i < |lines| && Cut(lines[i]) == Some(p)
    decreases |lines|
  {
    if lines != [] {
      SettingsMeaning(f, lines[1..], p);
      if exists i :: 0 <= i < |lines| - 1 && Cut(lines[1..][i]) == Some(p) {
        var i :| 0 <= i < |lines| - 1 && Cut(lines[1..][i]) == Some(p);
        assert Cut(lines[i + 1]) == Some(p);
      }
      if exists i :: 0 <= i < |lines| && Cut(lines[i]) == Some(p) {
        var i :| 0 <= i < |lines| && Cut(lines[i]) == Some(p);
        if i > 0 {
          assert Cut(lines[1..][i - 1]) == Some(p);
        }
      }
    }
  }

  /** What a sync sets, in the pattern's own terms: a pair some line cuts into,
      when there is no pattern, when the pattern is empty or just `!`, when a
      `!pattern` does not start the keyword, or when a plain pattern does. */
  lemma PatternSelects(pattern: Option<string>, lines: seq<string>, p: Pair)
    ensures p in Settings(FilterOf(pattern), lines) <==>
      (exists i :: 0 <= i < |lines| && Cut(lines[i]) == Some(p))
      && match pattern
         case None => true
         case Some(q) =>
           if |q| > 0 && q[0] == '!' then |q| == 1 || !CString.IsPrefix(q[1..], p.name)
           else |q| == 0 || CString.IsPrefix(q, p.name)
  {
    SettingsMeaning(FilterOf(pattern), lines, p);
  }

  /** A prefix and its negation split the file: each set of an unfiltered sync
      is made by exactly one of the two. */
  lemma {:induction false} FiltersPartition(prefix: string, lines: seq<string>)
    requires |prefix| > 0
    ensures |Settings(Filter(false, prefix), lines)| + |Settings(Filter(true, prefix), lines)|
         == |Settings(Filter(false, ""), lines)|
    decreases |lines|
  {
    if lines != [] {
      FiltersPartition(prefix, lines[1..]);
    }
  }

  /** One line of the sync: the sets it calls for, then the sets of the lines after it. */
  lemma LineStep(m: map<string, string>, script: seq<bool>, f: Filter, lines: seq<string>, i: nat)
    requires i < |lines|
    ensures LineSetting(f, lines[i]) == [] || LineSetting(f, lines[i]) == [Cut(lines[i]).value]
    ensures var ls := LineSetting(f, lines[i]);
      var rest := Settings(f, lines[i + 1..]);
      SetRun(m, script, Settings(f, lines[i..]))
         == if ls == [] then SetRun(m, script, rest)
            else if Succeeds(script) then SetRun(m[ls[0].name := ls[0].value], Rest(script), rest)
            else Run(m, Rest(script), false)
  {
    assert lines[i..][1..] == lines[i + 1..];
    var ls := LineSetting(f, lines[i]);
    assert Settings(f, lines[i..]) == ls + Settings(f, lines[i + 1..]);
    if ls != [] {
      var ps := ls + Settings(f, lines[i + 1..]);
      assert ps[0] == ls[0] && ps[1..] == Settings(f, lines[i + 1..]);
    } else {
      assert ls + Settings(f, lines[i + 1..]) == Settings(f, lines[i + 1..]);
    }
  }

  /** `ezcfg_api_nvram_set`: negative on failure. */
  method ApiSet(store: Store, name: string, value: string) returns (rc: int)
    modifies store
    ensures (rc >= 0) == Succeeds(old(store.script)) && store.script == Rest(old(store.script))
    ensures store.entries == if rc >= 0 then old(store.entries)[name := value] else old(store.entries)
  {
    var ok := store.SetEntry(name, value);
    rc := if ok then 0 else -1;
  }

  /** `utils_sync_nvram_with_cfg(path, pattern)`, where `file` is what opening
      `path` yields: a NULL path or a file that cannot be opened fails with nothing
      set; otherwise every line with an `=` whose keyword the pattern selects is set
      in order, and the first failed set ends the sync with failure, the sets before
      it staying applied. */
  method Sync(store: Store, path: Option<string>, file: Option<seq<string>>, pattern: Option<string>) returns (ret: int)
    modifies store
    ensures path.None? || file.None? ==>
      ret == ExitFailure && store.entries == old(store.entries) && store.script == old(store.script)
    ensures path.Some? && file.Some? ==>
      var run := SetRun(old(store.entries), old(store.script), Settings(FilterOf(pattern), file.value));
      store.entries == run.entries && store.script == run.script
      && ret == (if run.ok then ExitSuccess else ExitFailure)
  {
    if path.None? {
      return ExitFailure;
    }
    var negative := false;
    var prefix := "";
    if pattern.Some? {
      prefix := pattern.value;
      if |prefix| > 0 && prefix[0] == '!' {
        negative := true;
        prefix := prefix[1..];
      }
    }
    var prefixLen := |prefix|;
    if file.None? {
      return ExitFailure;
    }
    ghost var f := FilterOf(pattern);
    assert f == Filter(negative, prefix);
    var lines := file.value;
    var i := 0;
    while i < |lines|
      invariant 0 <= i <= |lines|
      invariant SetRun(store.entries, store.script, Settings(f, lines[i..]))
             == SetRun(old(store.entries), old(store.script), Settings(f, lines))
    {
      LineStep(store.entries, store.script, f, lines, i);
      var cut := Cut(lines[i]);
      if cut.Some? {
        var keyword, value := cut.value.name, cut.value.value;
        var rc := 0;
        if prefixLen > 0 {
          if negative {
            if !CString.IsPrefix(prefix, keyword) {
              rc := ApiSet(store, keyword, value);
            }
          } else {
            if CString.IsPrefix(prefix, keyword) {
              rc := ApiSet(store, keyword, value);
            }
          }
        } else {
          rc := ApiSet(store, keyword, value);
        }
        if rc < 0 {
          return ExitFailure;
        }
      }
      i := i + 1;
    }
    return ExitSuccess;
  }
}
