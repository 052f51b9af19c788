/**
 * The NVRAM store as the SOAP handler sees it: a flat name/value namespace whose
 * every fallible call may fail on its own.  The storage backends are not part of
 * this model; which calls fail is a script of outcomes the store consumes one per
 * fallible call, in call order (an exhausted script lets every call succeed).
 */
module Nvram {
  import opened Wrappers

  /** One node of an `ezcfg_link_list` or of the entry list: a name and its value. */
  datatype Pair = Pair(name: string, value: string)

  /** What `ezcfg_nvram_get_storage_*_string` report for one storage slot. */
  datatype Storage = Storage(backend: string, coding: string, path: string)

  /** Whether the next fallible call succeeds under `script`. */
  predicate Succeeds(script: seq<bool>) {
    script == [] || script[0]
  }

  /** The script left after one fallible call. */
  function Rest(script: seq<bool>): (r: seq<bool>)
    ensures |r| == if script == [] then 0 else |script| - 1
  {
    if script == [] then [] else script[1..]
  }

  /** `ps` lists the entries of `m`: every pair is an entry, every name once, and every
      entry appears. */
  ghost predicate Lists(m: map<string, string>, ps: seq<Pair>) {
    (forall i :: 0 <= i < |ps| ==> ps[i].name in m && m[ps[i].name] == ps[i].value)
    && (forall i, j :: 0 <= i < j < |ps| ==> ps[i].name != ps[j].name)
    && (forall k :: k in m ==> exists i :: 0 <= i < |ps| && ps[i].name == k)
  }

  class Store {
    var entries: map<string, string>
    var script: seq<bool>
    const version: string
    const totalSpace: int
    const freeSpace: int
    const usedSpace: int
    /** One slot per configured storage, `EZCFG_NVRAM_STORAGE_NUM` of them. */
    const storage: seq<Storage>

    constructor (entries: map<string, string>, script: seq<bool>, version: string,
                 totalSpace: int, freeSpace: int, usedSpace: int, storage: seq<Storage>)
      ensures this.entries == entries && this.script == script && this.version == version
      ensures this.totalSpace == totalSpace && this.freeSpace == freeSpace
      ensures this.usedSpace == usedSpace && this.storage == storage
    {
      this.entries := entries;
      this.script := script;
      this.version := version;
      this.totalSpace := totalSpace;
      this.freeSpace := freeSpace;
      this.usedSpace := usedSpace;
      this.storage := storage;
    }

    /** The outcome of the next fallible call. */
    method Attempt() returns (ok: bool)
      modifies this`script
      ensures ok == Succeeds(old(script)) && script == Rest(old(script))
    {
      ok := script == [] || script[0];
      script := Rest(script);
    }

    /** `ezcfg_nvram_get_entry_value`: false on failure; the value is NULL on failure
        and for a name the store does not hold. */
    method GetEntryValue(name: string) returns (ret: bool, value: Option<string>)
      modifies this`script
      ensures ret == Succeeds(old(script)) && script == Rest(old(script))
      ensures value == if ret && name in entries then Some(entries[name]) else None
    {
      ret := Attempt();
      value := if ret && name in entries then Some(entries[name]) else None;
    }

    /** `ezcfg_nvram_set_entry`. */
    method SetEntry(name: string, value: string) returns (ok: bool)
      modifies this
      ensures ok == Succeeds(old(script)) && script == Rest(old(script))
      ensures entries == if ok then old(entries)[name := value] else old(entries)
    {
      ok := Attempt();
      if ok {
        entries := entries[name := value];
      }
    }

    /** `ezcfg_nvram_unset_entry`. */
    method UnsetEntry(name: string) returns (ok: bool)
      modifies this
      ensures ok == Succeeds(old(script)) && script == Rest(old(script))
      ensures entries == if ok then old(entries) - {name} else old(entries)
    {
      ok := Attempt();
      if ok {
        entries := entries - {name};
      }
    }

    /** `ezcfg_nvram_commit`: the persistence it performs is not part of this model. */
    method Commit() returns (ok: bool)
      modifies this`script
      ensures ok == Succeeds(old(script)) && script == Rest(old(script))
    {
      ok := Attempt();
    }

    /** `ezcfg_nvram_get_all_entries_list`: on success, every entry once, in the
        store's own order. */
    method GetAllEntriesList() returns (ok: bool, list: seq<Pair>)
      modifies this`script
      ensures ok == Succeeds(old(script)) && script == Rest(old(script))
      ensures ok ==> Lists(entries, list)
      ensures !ok ==> list == []
    {
      ok := Attempt();
      list := [];
      if !ok {
        return;
      }
      var keys := entries.Keys;
      while keys != {}
        invariant keys <= entries.Keys
        invariant forall i :: 0 <= i < |list| ==>
          list[i].name in entries && list[i].name !in keys && entries[list[i].name] == list[i].value
        invariant forall i, j :: 0 <= i < j < |list| ==> list[i].name != list[j].name
        invariant forall k :: k in entries && k !in keys ==> exists i :: 0 <= i < |list| && list[i].name == k
        decreases |keys|
      {
        var k :| k in keys;
        ghost var before := list;
        list := list + [Pair(k, entries[k])];
        forall n | n in entries && n !in keys - {k}
          ensures exists i :: 0 <= i < |list| && list[i].name == n
        {
          if n == k {
            assert list[|list| - 1].name == n;
          } else {
            var i :| 0 <= i < |before| && before[i].name == n;
            assert list[i].name == n;
          }
        }
        keys := keys - {k};
      }
    }

    /** `ezcfg_nvram_insert_socket`: its effect on the socket table is not part of
        this model. */
    method InsertSocket(list: seq<Pair>) returns (ok: bool)
      modifies this`script
      ensures ok == Succeeds(old(script)) && script == Rest(old(script))
    {
      ok := Attempt();
    }

    /** `ezcfg_nvram_remove_socket`. */
    method RemoveSocket(list: seq<Pair>) returns (ok: bool)
      modifies this`script
      ensures ok == Succeeds(old(script)) && script == Rest(old(script))
    {
      ok := Attempt();
    }
  }

  /* -------------------------------------------------------------- set runs */

  /** The state a per-entry set loop leaves: the entries, the unconsumed script and
      whether every set succeeded. */
  datatype Run = Run(entries: map<string, string>, script: seq<bool>, ok: bool)

  /** A loop of sets: set the pairs in order and stop at the first failure, the
      pairs before it staying set. */
  function SetRun(m: map<string, string>, script: seq<bool>, ps: seq<Pair>): Run
    decreases |ps|
  {
    if ps == [] then Run(m, script, true)
    else if Succeeds(script) then SetRun(m[ps[0].name := ps[0].value], Rest(script), ps[1..])
    else Run(m, Rest(script), false)
  }


  /** The reference for a run of sets that all succeed: the pairs applied in order. */
  function Applied(m: map<string, string>, ps: seq<Pair>): map<string, string> {
    if ps == [] then m else Applied(m, ps[..|ps| - 1])[ps[|ps| - 1].name := ps[|ps| - 1].value]
  }

  lemma {:induction false} AppliedCons(m: map<string, string>, p: Pair, ps: seq<Pair>)
    ensures Applied(m[p.name := p.value], ps) == Applied(m, [p] + ps)
    decreases |ps|
  {
    if ps != [] {
      var front := ps[..|ps| - 1];
      AppliedCons(m, p, front);
      assert ([p] + ps)[..|ps|] == [p] + front;
    }
  }

  /** When none of the first `|ps|` calls fails, the loop applies every pair in
      order and reports success. */
  lemma {:induction false} SetRunAllSucceed(m: map<string, string>, script: seq<bool>, ps: seq<Pair>)
    requires forall i :: 0 <= i < |ps| && i < |script| ==> script[i]
    ensures SetRun(m, script, ps).ok && SetRun(m, script, ps).entries == Applied(m, ps)
    decreases |ps|
  {
    if ps != [] {
      assert Succeeds(script) by {
        if script != [] {
          assert script[0];
        }
      }
      var rest := Rest(script);
      forall i | 0 <= i < |ps| - 1 && i < |rest|
        ensures rest[i]
      {
        assert rest[i] == script[i + 1];
      }
      SetRunAllSucceed(m[ps[0].name := ps[0].value], rest, ps[1..]);
      AppliedCons(m, ps[0], ps[1..]);
      assert [ps[0]] + ps[1..] == ps;
    }
  }

  /** When call `k` is the first to fail, the pairs before it stay set, the rest
      are never tried and the run reports failure: it is not transactional. */
  lemma {:induction false} SetRunStopsAtFailure(m: map<string, string>, script: seq<bool>, ps: seq<Pair>, k: nat)
    requires k < |ps| && k < |script| && !script[k]
    requires forall i :: 0 <= i < k ==> script[i]
    ensures SetRun(m, script, ps) == Run(Applied(m, ps[..k]), script[k + 1..], false)
    decreases k
  {
    if k == 0 {
      assert ps[..0] == [];
    } else {
      assert script[0];
      var rest := Rest(script);
      assert rest[k - 1] == script[k];
      forall i | 0 <= i < k - 1
        ensures rest[i]
      {
        assert rest[i] == script[i + 1];
      }
      SetRunStopsAtFailure(m[ps[0].name := ps[0].value], rest, ps[1..], k - 1);
      AppliedCons(m, ps[0], ps[1..][..k - 1]);
      assert [ps[0]] + ps[1..][..k - 1] == ps[..k];
      assert rest[k..] == script[k + 1..];
    }
  }

  /** The run succeeds exactly when none of its calls fails. */
  lemma {:induction false} SetRunOk(m: map<string, string>, script: seq<bool>, ps: seq<Pair>)
    ensures SetRun(m, script, ps).ok <==> forall i :: 0 <= i < |ps| && i < |script| ==> script[i]
    decreases |ps|
  {
    if ps != [] {
      var rest := Rest(script);
      SetRunOk(m[ps[0].name := ps[0].value], rest, ps[1..]);
      if script != [] && script[0] {
        assert (forall i :: 0 <= i < |ps| && i < |script| ==> script[i])
          <==> (forall i :: 0 <= i < |ps| - 1 && i < |rest| ==> rest[i]) by {
          if forall i :: 0 <= i < |ps| - 1 && i < |rest| ==> rest[i] {
            forall i | 0 <= i < |ps| && i < |script|
              ensures script[i]
            {
              if i > 0 {
                assert script[i] == rest[i - 1];
              }
            }
          }
        }
      }
    }
  }

  /** After the pairs are applied, a name takes the value of its last pair. */
  lemma {:induction false} AppliedLastWins(m: map<string, string>, ps: seq<Pair>, i: nat)
    requires i < |ps| && forall j :: i < j < |ps| ==> ps[j].name != ps[i].name
    ensures ps[i].name in Applied(m, ps) && Applied(m, ps)[ps[i].name] == ps[i].value
    decreases |ps|
  {
    if i < |ps| - 1 {
      AppliedLastWins(m, ps[..|ps| - 1], i);
    }
  }

  /** A name no pair mentions keeps its entry, or its absence. */
  lemma {:induction false} AppliedElsewhere(m: map<string, string>, ps: seq<Pair>, name: string)
    requires forall j :: 0 <= j < |ps| ==> ps[j].name != name
    ensures (name in Applied(m, ps) <==> name in m)
    ensures name in m ==> Applied(m, ps)[name] == m[name]
    decreases |ps|
  {
    if ps != [] {
      AppliedElsewhere(m, ps[..|ps| - 1], name);
    }
  }
}
