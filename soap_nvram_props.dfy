/**
 * What a client of the NVRAM SOAP service reads back from the responses the
 * handler builds, and the properties of the handler's request reading, set-multi
 * loop, Content-Length header and URI dispatch.
 */
module SoapNvramProps {
  import opened Wrappers
  import CString
  import opened SoapTree
  import opened Nvram
  import opened SoapNvram
  import Worker

  /* -------------------------------------------------------------- readers */

  /** The text of the first `tag` child of the body's first `op` element. */
  function ResponseField(es: seq<Element>, op: string, tag: string): Option<string> {
    var r := FindChild(es, BodyIndex(es), -1, op);
    Content(es, FindChild(es, r, -1, tag))
  }

  /** The reason text of the body's Fault, None when the body carries none. */
  function FaultReason(es: seq<Element>): Option<string> {
    var f := FindChild(es, BodyIndex(es), -1, FaultTag);
    var reason := FindChild(es, f, -1, ReasonTag);
    Content(es, FindChild(es, reason, -1, TextTag))
  }

  /** The first lookup finds the only matching element. */
  lemma FindOnly(es: seq<Element>, parent: int, name: string, k: nat)
    requires k < |es| && parent >= 0 && IsChild(es[k], parent, name)
    requires forall j :: 0 <= j < |es| && j != k ==> !IsChild(es[j], parent, name)
    ensures FindChild(es, parent, -1, name) == k
  {
  }

  /** A lookup with no matching element answers -1. */
  lemma FindNone(es: seq<Element>, parent: int, name: string)
    requires forall j :: 0 <= j < |es| ==> !IsChild(es[j], parent, name)
    ensures FindChild(es, parent, -1, name) == -1
  {
  }

  /** A result response carries its result and no Fault. */
  lemma ResultTreeReads(op: string, result: string)
    requires op != FaultTag
    ensures ResponseField(ResultTree(op, result), op, ResultTag) == Some(result)
    ensures FaultReason(ResultTree(op, result)) == None
  {
    var es := ResultTree(op, result);
    FindOnly(es, 1, op, 2);
    FindOnly(es, 2, ResultTag, 3);
    FindNone(es, 1, FaultTag);
  }

  /** A Fault carries its reason and no response element. */
  lemma FaultTreeReads(reason: string, op: string, tag: string)
    requires op != FaultTag
    ensures FaultReason(FaultTree(reason)) == Some(reason)
    ensures ResponseField(FaultTree(reason), op, tag) == None
  {
    var es := FaultTree(reason);
    FindOnly(es, 1, FaultTag, 2);
    FindOnly(es, 2, ReasonTag, 5);
    FindOnly(es, 5, TextTag, 6);
    FindNone(es, 1, op);
  }

  /** getNvram answers the stored value under the name exactly when the store holds
      the name and its get succeeds; otherwise an "invalid name" Fault. */
  lemma GetAnswer(m: map<string, string>, ok: bool, name: string)
    ensures var es := GetReply(m, ok, name);
      && ResponseField(es, GetResponseTag, ValueTag) == (if ok && name in m then Some(m[name]) else None)
      && ResponseField(es, GetResponseTag, NameTag) == (if ok && name in m then Some(name) else None)
      && FaultReason(es) == (if ok && name in m then None else Some(InvalidNameFault))
  {
    if ok && name in m {
      var es := GetTree(name, m[name]);
      FindOnly(es, 1, GetResponseTag, 2);
      FindOnly(es, 2, ValueTag, 4);
      FindOnly(es, 2, NameTag, 3);
      FindNone(es, 1, FaultTag);
    } else {
      FaultTreeReads(InvalidNameFault, GetResponseTag, ValueTag);
      FaultTreeReads(InvalidNameFault, GetResponseTag, NameTag);
    }
  }

  /** setNvram reports the store's verdict when the request carries a name and a
      value, and an "invalid value" Fault otherwise. */
  lemma SetAnswer(name: Option<string>, value: Option<string>, ok: bool)
    ensures var es := SetReply(name, value, ok);
      && ResponseField(es, SetResponseTag, ResultTag) == (if name.Some? && value.Some? then Some(Verdict(ok)) else None)
      && FaultReason(es) == (if name.Some? && value.Some? then None else Some(InvalidValueFault))
  {
    if name.Some? && value.Some? {
      ResultTreeReads(SetResponseTag, Verdict(ok));
    } else {
      FaultTreeReads(InvalidValueFault, SetResponseTag, ResultTag);
    }
  }

  /** unsetNvram answers OK exactly when the store held the name, whether or not
      the unset itself succeeded. */
  lemma UnsetAnswer(m: map<string, string>, ok: bool, name: string)
    ensures var es := UnsetReply(m, ok, name);
      && ResponseField(es, UnsetResponseTag, ResultTag) == (if ok && name in m then Some(ResultOk) else None)
      && FaultReason(es) == (if ok && name in m then None else Some(InvalidNameFault))
  {
    if ok && name in m {
      ResultTreeReads(UnsetResponseTag, ResultOk);
    } else {
      FaultTreeReads(InvalidNameFault, UnsetResponseTag, ResultTag);
    }
  }

  /** commitNvram answers OK exactly when the commit succeeds, an "operation fail"
      Fault otherwise. */
  lemma CommitAnswer(ok: bool)
    ensures ResponseField(CommitReply(ok), CommitResponseTag, ResultTag) == (if ok then Some(ResultOk) else None)
    ensures FaultReason(CommitReply(ok)) == (if ok then None else Some(OperationFailFault))
  {
    if ok {
      ResultTreeReads(CommitResponseTag, ResultOk);
    } else {
      FaultTreeReads(OperationFailFault, CommitResponseTag, ResultTag);
    }
  }

  /** setMultiNvram, insertSocket and removeSocket report the store's verdict when a
      list was collected and an "invalid value" Fault when none was. */
  lemma ListVerdictAnswer(op: string, list: Option<seq<Pair>>, ok: bool)
    requires op != FaultTag
    ensures var es := ListVerdictReply(op, list, ok);
      && ResponseField(es, op, ResultTag) == (if list.Some? then Some(Verdict(ok)) else None)
      && FaultReason(es) == (if list.Some? then None else Some(InvalidValueFault))
  {
    if list.Some? {
      ResultTreeReads(op, Verdict(ok));
    } else {
      FaultTreeReads(InvalidValueFault, op, ResultTag);
    }
  }

  /* ------------------------------------------------------------ row lists */

  /** Row `k` of `ps` sits at `3 * k` in the rows. */
  lemma {:induction false} RowsAt(ps: seq<Pair>, at: nat, k: nat)
    requires k < |ps|
    ensures Rows(ps, at)[3 * k..3 * k + 3] == Row(at + 3 * k, ps[k])
    decreases |ps|
  {
    var front := ps[..|ps| - 1];
    if k < |ps| - 1 {
      RowsAt(front, at, k);
      assert front[k] == ps[k];
      assert Rows(ps, at)[3 * k..3 * k + 3] == Rows(front, at)[3 * k..3 * k + 3];
    }
  }

  /** Every row element hangs below the response element and before itself. */
  lemma {:induction false} RowsParents(ps: seq<Pair>, at: nat)
    requires at >= 3
    ensures forall j :: 0 <= j < |Rows(ps, at)| ==> 2 <= Rows(ps, at)[j].parent < at + j
    decreases |ps|
  {
    if ps != [] {
      RowsParents(ps[..|ps| - 1], at);
    }
  }

  /** The rows part of a rows response: per pair a node at `3 + 3 * k` under the
      response element, with its name and value children right after it; every
      element hangs before itself, and those past the response element below it. */
  ghost predicate RowShaped(es: seq<Element>, ps: seq<Pair>) {
    && |es| == 3 + 3 * |ps|
    && (forall j :: 0 <= j < |es| ==> es[j].parent < j)
    && (forall j :: 3 <= j < |es| ==> 2 <= es[j].parent)
    && (forall k :: 0 <= k < |ps| ==>
          es[3 + 3 * k] == Element(2, NvramTag, None, [])
          && es[4 + 3 * k] == Leaf(3 + 3 * k, NameTag, ps[k].name)
          && es[5 + 3 * k] == Leaf(3 + 3 * k, ValueTag, ps[k].value))
  }

  /** Every element of a rows response hangs before itself, and those past the
      response element below it. */
  lemma RowsTreeParents(op: string, ps: seq<Pair>)
    ensures var es := RowsTree(op, ps);
      && (forall j :: 0 <= j < |es| ==> es[j].parent < j)
      && (forall j :: 3 <= j < |es| ==> 2 <= es[j].parent)
  {
    var es := RowsTree(op, ps);
    RowsParents(ps, 3);
    assert es[0].parent == -1 && es[1].parent == 0 && es[2].parent == 1;
  }

  /** A rows response is the prelude, the response element `op` at 2 and its rows. */
  lemma RowsTreeShape(op: string, ps: seq<Pair>)
    ensures RowsTree(op, ps)[..3] == Opened(op) && RowShaped(RowsTree(op, ps), ps)
  {
    var es := RowsTree(op, ps);
    RowsTreeParents(op, ps);
    forall k | 0 <= k < |ps|
      ensures es[3 + 3 * k] == Element(2, NvramTag, None, [])
      ensures es[4 + 3 * k] == Leaf(3 + 3 * k, NameTag, ps[k].name)
      ensures es[5 + 3 * k] == Leaf(3 + 3 * k, ValueTag, ps[k].value)
    {
      RowsAt(ps, 3, k);
      assert es[3 + 3 * k..6 + 3 * k] == Rows(ps, 3)[3 * k..3 * k + 3];
    }
  }

  /** Node `k` carries pair `k`. */
  lemma RowPair(es: seq<Element>, ps: seq<Pair>, k: nat)
    requires RowShaped(es, ps) && k < |ps|
    ensures NodePair(es, 3 + 3 * k) == Some(ps[k])
  {
    var n := 3 + 3 * k;
    var ni := FindChild(es, n, -1, NameTag);
    assert IsChild(es[n + 1], n, NameTag);
    assert ni == n + 1 by {
      assert ni != -1;
    }
    assert IsChild(es[n + 2], n, ValueTag);
  }

  /** The next node after node `k` is node `k + 1`, or none after the last. */
  lemma RowNext(es: seq<Element>, ps: seq<Pair>, k: nat)
    requires RowShaped(es, ps) && k < |ps|
    ensures FindChild(es, 2, 3 + 3 * k, NvramTag) == if k + 1 < |ps| then 6 + 3 * k else -1
  {
    var n := 3 + 3 * k;
    assert !IsChild(es[n + 1], 2, NvramTag) && !IsChild(es[n + 2], 2, NvramTag);
    if k + 1 < |ps| {
      assert es[3 + 3 * (k + 1)] == Element(2, NvramTag, None, []);
      assert IsChild(es[n + 3], 2, NvramTag);
    }
  }

  /** The response element is the body's only `op` child. */
  lemma RowOp(es: seq<Element>, ps: seq<Pair>, op: string)
    requires RowShaped(es, ps) && es[2].parent == 1 && es[2].name == op
    ensures FindChild(es, 1, -1, op) == 2
  {
    FindOnly(es, 1, op, 2);
  }

  /** The first node is node 0, or none when there are no pairs. */
  lemma RowFirst(es: seq<Element>, ps: seq<Pair>)
    requires RowShaped(es, ps)
    ensures FindChild(es, 2, -1, NvramTag) == if ps == [] then -1 else 3
  {
    if ps == [] {
      FindNone(es, 2, NvramTag);
    } else {
      assert es[3 + 3 * 0] == Element(2, NvramTag, None, []);
      assert IsChild(es[3], 2, NvramTag);
    }
  }

  /** The collection loop over rows that all fit in the list, from node `k` on. */
  lemma {:induction false} GatherRows(es: seq<Element>, ps: seq<Pair>, k: nat, cap: nat)
    requires RowShaped(es, ps) && k < |ps| <= cap
    ensures Gather(es, 2, 3 + 3 * k, false, cap, ps[..k]) == Some(ps)
    decreases |ps| - k
  {
    RowPair(es, ps, k);
    RowNext(es, ps, k);
    assert ps[..k] + [ps[k]] == ps[..k + 1];
    if k + 1 < |ps| {
      GatherRows(es, ps, k + 1, cap);
    } else {
      assert ps[..k + 1] == ps;
    }
  }

  /** The collection loop over more rows than the list takes: the insertion of
      pair `cap` fails. */
  lemma GatherRowsOverflow(es: seq<Element>, ps: seq<Pair>, k: nat, cap: nat)
    requires RowShaped(es, ps) && k <= cap < |ps|
    ensures Gather(es, 2, 3 + 3 * k, false, cap, ps[..k]) == None
  {
    forall i | k <= i <= cap
      ensures NodePair(es, 3 + 3 * i) == Some(ps[i])
      ensures i < cap ==> FindChild(es, 2, 3 + 3 * i, NvramTag) == 3 + 3 * (i + 1)
    {
      RowPair(es, ps, i);
      RowNext(es, ps, i);
    }
    ChainOverflow(es, ps, k, cap);
  }

  /** Nodes `3 + 3k` to `3 + 3 cap` each carry their pair and lead to the next:
      the loop collects pairs `k` to `cap - 1` and then finds the list full. */
  lemma {:induction false} ChainOverflow(es: seq<Element>, ps: seq<Pair>, k: nat, cap: nat)
    requires k <= cap < |ps|
    requires forall i :: k <= i <= cap ==> NodePair(es, 3 + 3 * i) == Some(ps[i])
    requires forall i :: k <= i < cap ==> FindChild(es, 2, 3 + 3 * i, NvramTag) == 3 + 3 * (i + 1)
    ensures Gather(es, 2, 3 + 3 * k, false, cap, ps[..k]) == None
    decreases cap - k
  {
    if k < cap {
      assert ps[..k] + [ps[k]] == ps[..k + 1];
      ChainOverflow(es, ps, k + 1, cap);
    }
  }

  /** Reading a rows response the way the dispatch reads a request gives back
      every pair, in order, when the list takes them all, and nothing otherwise:
      what the list and info builders write is what a client collects. */
  lemma RowsReadBack(op: string, ps: seq<Pair>, cap: nat)
    ensures Collected(RowsTree(op, ps), op, false, cap) == if |ps| <= cap then Some(ps) else None
  {
    var es := RowsTree(op, ps);
    RowsTreeShape(op, ps);
    assert es[2] == Opened(op)[2];
    RowOp(es, ps, op);
    RowFirst(es, ps);
    if ps != [] {
      if |ps| <= cap {
        GatherRows(es, ps, 0, cap);
      } else {
        GatherRowsOverflow(es, ps, 0, cap);
      }
    }
  }

  /** The entries a list of distinct-named pairs describes. */
  function ToMap(ps: seq<Pair>): (m: map<string, string>)
    ensures forall k :: k in m <==> exists i :: 0 <= i < |ps| && ps[i].name == k
  {
    if ps == [] then map[]
    else
      var front := ps[..|ps| - 1];
      var r := ToMap(front)[ps[|ps| - 1].name := ps[|ps| - 1].value];
      assert forall i :: 0 <= i < |front| ==> front[i] == ps[i];
      r
  }

  lemma {:induction false} ToMapAt(ps: seq<Pair>, i: nat)
    requires i < |ps| && forall a, b :: 0 <= a < b < |ps| ==> ps[a].name != ps[b].name
    ensures ToMap(ps)[ps[i].name] == ps[i].value
    decreases |ps|
  {
    if i < |ps| - 1 {
      var front := ps[..|ps| - 1];
      ToMapAt(front, i);
    }
  }

  /** A list of the store's entries describes exactly the store's map. */
  lemma ListsToMap(m: map<string, string>, listed: seq<Pair>)
    requires Lists(m, listed)
    ensures ToMap(listed) == m
  {
    forall k | k in m
      ensures k in ToMap(listed) && ToMap(listed)[k] == m[k]
    {
      var i :| 0 <= i < |listed| && listed[i].name == k;
      ToMapAt(listed, i);
    }
  }

  /** A rows response carries no Fault. */
  lemma RowsTreeNoFault(op: string, ps: seq<Pair>)
    requires op != FaultTag
    ensures FaultReason(RowsTree(op, ps)) == None
  {
    var es := RowsTree(op, ps);
    RowsTreeShape(op, ps);
    assert es[2].name == op;
    FindNone(es, 1, FaultTag);
  }

  /** A successful listNvram answers every entry of the store: the client rebuilds
      exactly the store's map from the rows it collects.  A failed one is an
      "operation fail" Fault. */
  lemma ListAnswer(m: map<string, string>, ok: bool, listed: seq<Pair>, cap: nat)
    requires ok ==> Lists(m, listed) && |listed| <= cap
    ensures var es := ListReply(ok, listed);
      && (ok ==> Collected(es, ListResponseTag, false, cap) == Some(listed) && ToMap(listed) == m && FaultReason(es) == None)
      && (!ok ==> FaultReason(es) == Some(OperationFailFault))
  {
    if ok {
      RowsReadBack(ListResponseTag, listed, cap);
      RowsTreeNoFault(ListResponseTag, listed);
      ListsToMap(m, listed);
    } else {
      FaultTreeReads(OperationFailFault, ListResponseTag, ResultTag);
    }
  }

  /** infoNvram answers the version, the three space figures and three rows per
      storage slot, all of which a client collects back in order. */
  lemma InfoAnswer(version: string, total: int, free: int, used: int, st: seq<Storage>, cap: nat)
    requires 4 + 3 * |st| <= cap
    ensures var rows := InfoRows(version, total, free, used, st);
      && |rows| == 4 + 3 * |st|
      && Collected(RowsTree(InfoResponseTag, rows), InfoResponseTag, false, cap) == Some(rows)
      && (forall n :: 0 <= n < |st| ==> rows[4 + 3 * n..7 + 3 * n] == SlotRows(n, st[n]))
  {
    var rows := InfoRows(version, total, free, used, st);
    RowsReadBack(InfoResponseTag, rows, cap);
    InfoSlots(version, total, free, used, st);
  }

  /** Behind the four figures, slot `n` has rows `4 + 3n` to `6 + 3n`. */
  lemma InfoSlots(version: string, total: int, free: int, used: int, st: seq<Storage>)
    ensures var rows := InfoRows(version, total, free, used, st);
      forall n :: 0 <= n < |st| ==> rows[4 + 3 * n..7 + 3 * n] == SlotRows(n, st[n])
  {
    var rows := InfoRows(version, total, free, used, st);
    forall n | 0 <= n < |st|
      ensures rows[4 + 3 * n..7 + 3 * n] == SlotRows(n, st[n])
    {
      StorageRowsAt(st, n);
      assert rows[4 + 3 * n..7 + 3 * n] == StorageRows(st)[3 * n..3 * n + 3];
    }
  }

  /* ------------------------------------------------------ request reading */

  /** The loop with `rescan` keeps returning to the first node: once that node
      carries a pair, the list fills up and the insertion fails. */
  lemma {:induction false} RescanGather(es: seq<Element>, op: int, first: int, cap: nat, acc: seq<Pair>)
    requires first == FindChild(es, op, -1, NvramTag) && first > 0
    ensures Gather(es, op, first, true, cap, acc) == None
    decreases if |acc| < cap then cap - |acc| else 0
  {
    var p := NodePair(es, first);
    if p.Some? && |acc| < cap {
      RescanGather(es, op, first, cap, acc + [p.value]);
    }
  }

  /** The setMultiNvram branch searches for the next node from the start rather
      than after the current node, so it collects a list only from a request that
      carries no node at all: any request with a node ends with no list, and the
      answer is the "invalid value" Fault. The rescan stops only at `cap`, the
      first insertion the link list refuses; without such a refusal the loop
      would not end. */
  lemma SetMultiNeverCollects(es: seq<Element>, cap: nat)
    ensures var op := FindChild(es, BodyIndex(es), -1, SetMultiTag);
      Collected(es, SetMultiTag, true, cap) == if FindChild(es, op, -1, NvramTag) > 0 then None else Some([])
  {
    var op := FindChild(es, BodyIndex(es), -1, SetMultiTag);
    var first := FindChild(es, op, -1, NvramTag);
    if first > 0 {
      RescanGather(es, op, first, cap, []);
    }
  }

  /** A setNvram request: the name, then the value, under the request element. */
  function SetRequest(name: string, value: string): seq<Element> {
    Prelude + [Element(1, SetTag, None, [NvramNs]), Leaf(2, NameTag, name), Leaf(2, ValueTag, value)]
  }

  /** The setNvram branch reads back the name and the value a request carries. */
  lemma SetRequestReads(name: string, value: string)
    ensures SetFields(SetRequest(name, value)) == (Some(name), Some(value))
  {
    var es := SetRequest(name, value);
    FindOnly(es, 1, SetTag, 2);
    FindOnly(es, 2, NameTag, 3);
    assert IsChild(es[4], 2, ValueTag);
  }

  /** A setNvram request without a value is answered with the Fault. */
  lemma SetRequestWithoutValue(name: string)
    ensures var es := Prelude + [Element(1, SetTag, None, [NvramNs]), Leaf(2, NameTag, name)];
      SetFields(es) == (Some(name), None)
      && FaultReason(SetReply(SetFields(es).0, SetFields(es).1, true)) == Some(InvalidValueFault)
  {
    var es := Prelude + [Element(1, SetTag, None, [NvramNs]), Leaf(2, NameTag, name)];
    FindOnly(es, 1, SetTag, 2);
    FindOnly(es, 2, NameTag, 3);
    SetAnswer(Some(name), None, true);
  }

  /* ------------------------------------------------------- Content-Length */

  function Pow10(k: nat): (r: nat)
    ensures r >= 1
  {
    if k == 0 then 1 else 10 * Pow10(k - 1)
  }

  /** A positive number has no more digits than its value. */
  lemma {:induction false} DecimalNoLonger(n: nat)
    requires n >= 1
    ensures |CString.Decimal(n)| <= n
  {
    if n >= 10 {
      DecimalNoLonger(n / 10);
    }
  }

  /** `n` prints in at most `k` digits exactly when it is below `10^k`. */
  lemma {:induction false} DecimalWidth(n: nat, k: nat)
    requires k >= 1
    ensures |CString.Decimal(n)| <= k <==> n < Pow10(k)
    decreases k
  {
    if n >= 10 {
      assert |CString.Decimal(n)| == |CString.Decimal(n / 10)| + 1;
      if k > 1 {
        DecimalWidth(n / 10, k - 1);
        assert n / 10 < Pow10(k - 1) <==> n < 10 * Pow10(k - 1);
      } else {
        assert |CString.Decimal(n / 10)| >= 1;
      }
    } else if k > 1 {
      assert Pow10(k) == 10 * Pow10(k - 1);
    }
  }

  /** A run of `k` digits is worth less than `10^k`. */
  lemma {:induction false} DigitsBelow(d: string)
    requires forall i :: 0 <= i < |d| ==> CString.IsDigit(d[i])
    ensures CString.DigitsValue(d) < Pow10(|d|)
  {
    if |d| > 0 {
      DigitsBelow(d[..|d| - 1]);
    }
  }

  /** `strtol` reads a whole run of digits, saturating at LONG_MAX. */
  lemma ScanDigits(d: string)
    requires |d| > 0 && forall i :: 0 <= i < |d| ==> CString.IsDigit(d[i])
    ensures var v := CString.DigitsValue(d);
      Worker.ContentLength(Some(d)) == if v <= CString.LongMax then v else CString.LongMax
  {
    assert !CString.IsSpace(d[0]) && d[0] != '+' && d[0] != '-';
    assert CString.SpaceRun(d) == 0;
    assert d[0..] == d;
    CString.DigitRunOfDecimal(d, []);
    assert d + [] == d;
    assert d[0..|d|] == d;
    assert CString.ScanNumber(d) == Some(CString.Number(CString.DigitsValue(d), |d|));
  }

  /** Every response but a found getNvram carries the body length in full, and a
      client reads it back as the body length. */
  lemma ContentLengthExact(render: seq<Element> -> string, es: seq<Element>)
    ensures var n := |Body(render, es)|;
      var v := CString.Truncated(CString.Decimal(n), LengthRoom(false, n));
      v == CString.Decimal(n)
      && Worker.ContentLength(Some(v)) == (if n <= CString.LongMax then n else CString.LongMax)
  {
    var n := |Body(render, es)|;
    DecimalNoLonger(n);
    Worker.ContentLengthOfDecimal(n);
  }

  /** A found getNvram prints the length into `sizeof(char *)` characters: the
      header carries the body length only for bodies under 1000 characters; a
      longer body is announced as the value of its first three digits. */
  lemma GetContentLength(render: seq<Element> -> string, es: seq<Element>)
    ensures var n := |Body(render, es)|;
      var v := CString.Truncated(CString.Decimal(n), LengthRoom(true, n));
      && (v == CString.Decimal(n) <==> n < 1000)
      && (Worker.ContentLength(Some(v)) == n <==> n < 1000)
      && (n >= 1000 ==> |v| == 3 && Worker.ContentLength(Some(v)) < 1000)
  {
    var n := |Body(render, es)|;
    var d := CString.Decimal(n);
    var v := CString.Truncated(d, PointerSize);
    DecimalWidth(n, 3);
    assert Pow10(3) == 1000;
    if n < 1000 {
      Worker.ContentLengthOfDecimal(n);
    } else {
      assert |v| == 3 && v == d[..3];
      ScanDigits(v);
      DigitsBelow(v);
    }
  }

  /* --------------------------------------------------------------- routes */

  /** The directory every NVRAM URI lives in. */
  const NvramUriBase: string := "/ezcfg/nvram/soap-http/"

  /** The fixed URIs of the entry operations select their own branch. */
  lemma RouteEntryUris()
    ensures UnsetNameInBounds(SetUri) && RouteOf(SetUri) == SetRoute
    ensures UnsetNameInBounds(SetMultiUri) && RouteOf(SetMultiUri) == SetMultiRoute
    ensures UnsetNameInBounds(CommitUri) && RouteOf(CommitUri) == CommitRoute
  {
    assert SetUri[23] != GetUri[23] && SetUri[23] != UnsetUri[23];
    assert SetMultiUri[23] != GetUri[23] && SetMultiUri[23] != UnsetUri[23];
    assert CommitUri[23] != GetUri[23] && CommitUri[23] != UnsetUri[23];
  }

  /** The fixed URIs of the list, info and socket operations select their own
      branch. */
  lemma RouteListUris()
    ensures UnsetNameInBounds(ListUri) && RouteOf(ListUri) == ListRoute
    ensures UnsetNameInBounds(InfoUri) && RouteOf(InfoUri) == InfoRoute
    ensures UnsetNameInBounds(InsertSocketUri) && RouteOf(InsertSocketUri) == InsertSocketRoute
    ensures UnsetNameInBounds(RemoveSocketUri) && RouteOf(RemoveSocketUri) == RemoveSocketRoute
  {
    assert ListUri[23] != GetUri[23] && ListUri[23] != UnsetUri[23];
    assert InfoUri[23] != GetUri[23] && InfoUri[23] != UnsetUri[23];
    assert InsertSocketUri[23] != GetUri[23] && InsertSocketUri[23] != UnsetUri[23];
    assert RemoveSocketUri[23] != GetUri[23] && RemoveSocketUri[23] != UnsetUri[23];
  }

  /** getNvram takes the name after `?name=`. */
  lemma RouteGet(name: string)
    ensures UnsetNameInBounds(GetUri + NameQuery + name)
    ensures RouteOf(GetUri + NameQuery + name) == GetRoute(name)
  {
    var uri := GetUri + NameQuery + name;
    assert uri[..|GetUri|] == GetUri;
    assert uri[23] != UnsetUri[23];
    assert uri[|GetUri|..] == NameQuery + name;
    assert (NameQuery + name)[..|NameQuery|] == NameQuery;
    assert (NameQuery + name)[|NameQuery|..] == name;
  }

  /** A getNvram URI without the `?name=` query is not handled. */
  lemma RouteGetWithoutQuery(rest: string)
    requires !CString.IsPrefix(NameQuery, rest)
    ensures UnsetNameInBounds(GetUri + rest)
    ensures RouteOf(GetUri + rest) == Unhandled
  {
    var uri := GetUri + rest;
    assert uri[..|GetUri|] == GetUri;
    assert uri[23] != UnsetUri[23];
    assert uri[|GetUri|..] == rest;
  }

  /** unsetNvram skips six characters after its prefix without looking at them and
      takes the rest as the name. */
  lemma RouteUnset(query: string, name: string)
    requires |query| == |NameQuery|
    ensures UnsetNameInBounds(UnsetUri + query + name)
    ensures RouteOf(UnsetUri + query + name) == UnsetRoute(name)
  {
    var uri := UnsetUri + query + name;
    assert uri[..|UnsetUri|] == UnsetUri;
    assert uri[23] != GetUri[23];
    assert uri != SetUri by {
      assert |uri| != |SetUri|;
    }
    assert uri[|UnsetUri| + |NameQuery|..] == name;
  }

  /** A URI outside the NVRAM directory is not handled. */
  lemma RouteForeign(uri: string)
    requires !CString.IsPrefix(NvramUriBase, uri)
    ensures UnsetNameInBounds(uri) && RouteOf(uri) == Unhandled
  {
    assert GetUri[..23] == NvramUriBase && UnsetUri[..23] == NvramUriBase;
    assert SetUri[..23] == NvramUriBase && SetMultiUri[..23] == NvramUriBase;
    assert ListUri[..23] == NvramUriBase && CommitUri[..23] == NvramUriBase;
    assert InfoUri[..23] == NvramUriBase;
    assert InsertSocketUri[..23] == NvramUriBase && RemoveSocketUri[..23] == NvramUriBase;
  }
}
