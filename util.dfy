/**
 * The string helpers of libezcfg: parsing a log priority, trimming trailing
 * characters in place and skipping leading ones.  A `char *` is an `array?<char>`
 * whose C string starts at index 0; a returned pointer `s + k` is `Some(k)`.
 */
module Util {
  import opened Wrappers
  import opened CString

  const LogErr: int := 3
  const LogInfo: int := 6
  const LogDebug: int := 7

  /** `ezcfg_util_log_priority`: a number when `strtol` stops at the end of the
      string or at white space, otherwise a priority name given by its prefix. */
  function LogPriority(priority: string): (r: int)
    ensures var n := Strtol(priority);
      n.end == |priority| || IsSpace(priority[n.end]) ==> r == n.value
    ensures r !in {0, LogErr, LogInfo, LogDebug} ==> Strtol(priority).end > 0 && r == Strtol(priority).value
  {
    var n := Strtol(priority);
    if n.end == |priority| || IsSpace(priority[n.end]) then n.value
    else if IsPrefix("err", priority) then LogErr
    else if IsPrefix("info", priority) then LogInfo
    else if IsPrefix("debug", priority) then LogDebug
    else 0
  }

  /** Every decimal number reads back as itself, or as LONG_MAX when it does not
      fit in a `long`. */
  lemma LogPriorityOfNumber(n: nat)
    ensures LogPriority(Decimal(n)) == if n <= LongMax then n else LongMax
  {
    StrtolOfDecimal(n, []);
    assert Decimal(n) + [] == Decimal(n);
  }

  /** A string that starts with a letter is read by name: `err`, `info` and `debug`
      prefixes give LOG_ERR, LOG_INFO and LOG_DEBUG, anything else 0. */
  lemma PriorityByName(priority: string)
    requires |priority| > 0 && 'a' <= priority[0] <= 'z'
    ensures IsPrefix("err", priority) ==> LogPriority(priority) == LogErr
    ensures IsPrefix("info", priority) ==> LogPriority(priority) == LogInfo
    ensures IsPrefix("debug", priority) ==> LogPriority(priority) == LogDebug
    ensures !IsPrefix("err", priority) && !IsPrefix("info", priority) && !IsPrefix("debug", priority)
      ==> LogPriority(priority) == 0
  {
    assert SpaceRun(priority) == 0;
    assert DigitRun(priority) == 0;
  }

  /** The longest prefix of `t` whose last character is not in `l`. */
  function TrimTrailing(t: string, l: string): (r: string)
    ensures |r| <= |t| && r == t[..|r|]
    ensures |r| > 0 ==> r[|r| - 1] !in l
    ensures forall j :: |r| <= j < |t| ==> t[j] in l
  {
    if |t| > 0 && t[|t| - 1] in l then TrimTrailing(t[..|t| - 1], l) else t
  }

  /** The three properties above determine the trimmed string. */
  lemma {:induction false} TrimTrailingUnique(t: string, l: string, r: string)
    requires |r| <= |t| && r == t[..|r|]
    requires |r| > 0 ==> r[|r| - 1] !in l
    requires forall j :: |r| <= j < |t| ==> t[j] in l
    ensures r == TrimTrailing(t, l)
  {
    var q := TrimTrailing(t, l);
    assert |q| == |r|;
  }

  /** Trimming twice trims no more than trimming once. */
  lemma TrimTrailingIdempotent(t: string, l: string)
    ensures TrimTrailing(TrimTrailing(t, l), l) == TrimTrailing(t, l)
  {
    var r := TrimTrailing(t, l);
    TrimTrailingUnique(r, l, r);
  }

  /** `b` with NUL written at every index in [from, to). */
  function Blank(b: seq<char>, from: nat, to: nat): (r: seq<char>)
    ensures |r| == |b|
  {
    seq(|b|, j requires 0 <= j < |b| => if from <= j < to then NUL else b[j])
  }

  /** `ezcfg_util_remove_trailing_char`: NUL out the trailing run of `c`. */
  method RemoveTrailingChar(s: array?<char>, c: char)
    modifies s
    ensures s != null ==>
      var t := CStr(old(s[..]), 0);
      var r := TrimTrailing(t, [c]);
      s[..] == Blank(old(s[..]), |r|, |t|) && CStr(s[..], 0) == r
  {
    if s == null {
      return;
    }
    ghost var s0 := s[..];
    ghost var t := CStr(s0, 0);
    CStrSlice(s0, 0);
    var len: nat := |CStr(s[..], 0)|;
    while len > 0 && s[len - 1] == c
      invariant len <= |t| && s.Length == |s0|
      invariant forall j :: 0 <= j < s.Length ==> s[j] == if len <= j < |t| then NUL else s0[j]
      invariant forall j :: len <= j < |t| ==> t[j] in [c]
      decreases len
    {
      assert s[len - 1] == t[len - 1];
      len := len - 1;
      s[len] := NUL;
    }
    assert s[..] == Blank(s0, len, |t|);
    if len > 0 {
      assert s[len - 1] == t[len - 1];
    }
    TrimmedCStr(s0, t, len, [c]);
  }

  /** `ezcfg_util_remove_trailing_charlist`: NUL out the trailing run of characters
      of the C string `l`; nothing happens when either pointer is NULL. */
  method RemoveTrailingCharlist(s: array?<char>, l: Option<string>)
    requires l.Some? ==> NoNul(l.value)
    modifies s
    ensures s != null && l.None? ==> s[..] == old(s[..])
    ensures s != null && l.Some? ==>
      var t := CStr(old(s[..]), 0);
      var r := TrimTrailing(t, l.value);
      s[..] == Blank(old(s[..]), |r|, |t|) && CStr(s[..], 0) == r
  {
    if s == null || l.None? {
      return;
    }
    ghost var s0 := s[..];
    ghost var t := CStr(s0, 0);
    CStrSlice(s0, 0);
    IndexOfTests(l.value);
    var len: nat := |CStr(s[..], 0)|;
    while len > 0 && IndexOf(l.value, s[len - 1]).Some?
      invariant len <= |t| && s.Length == |s0|
      invariant forall j :: 0 <= j < s.Length ==> s[j] == if len <= j < |t| then NUL else s0[j]
      invariant forall j :: len <= j < |t| ==> t[j] in l.value
      decreases len
    {
      assert s[len - 1] == t[len - 1];
      len := len - 1;
      s[len] := NUL;
    }
    assert s[..] == Blank(s0, len, |t|);
    if len > 0 {
      assert s[len - 1] == t[len - 1];
    }
    TrimmedCStr(s0, t, len, l.value);
  }

  /** After the trimming loop stops at `len`, the C string left is the trimmed one. */
  lemma TrimmedCStr(s0: seq<char>, t: string, len: nat, l: string)
    requires t == CStr(s0, 0) && len <= |t|
    requires forall j :: len <= j < |t| ==> t[j] in l
    requires len > 0 ==> t[len - 1] !in l
    ensures |TrimTrailing(t, l)| == len
    ensures CStr(Blank(s0, len, |t|), 0) == TrimTrailing(t, l)
  {
    CStrSlice(s0, 0);
    var b := Blank(s0, len, |t|);
    TrimTrailingUnique(t, l, t[..len]);
    if len < |s0| {
      assert b[len] == NUL;
    }
    forall j | 0 <= j < len ensures b[j] != NUL {
      assert b[j] == t[j];
    }
    CStrUpTo(b, 0, len);
    assert b[0..len] == t[..len];
  }

  /** The number of leading characters of `t` that are in `l`. */
  function LeadingRun(t: string, l: string): (k: nat)
    ensures k <= |t|
  {
    if |t| > 0 && t[0] in l then 1 + LeadingRun(t[1..], l) else 0
  }

  /** The leading run consists of characters of `l` and stops at one outside it. */
  lemma {:induction false} LeadingRunMeaning(t: string, l: string)
    ensures forall j :: 0 <= j < LeadingRun(t, l) ==> t[j] in l
    ensures LeadingRun(t, l) < |t| ==> t[LeadingRun(t, l)] !in l
  {
    if |t| > 0 && t[0] in l {
      LeadingRunMeaning(t[1..], l);
    }
  }

  /** `ezcfg_util_skip_leading_char`: NULL for NULL, `s` itself when `c` is NUL, and
      otherwise `s` advanced past its leading run of `c`. */
  method SkipLeadingChar(s: array?<char>, c: char) returns (r: Option<nat>)
    ensures r.None? <==> s == null
    ensures s != null && c == NUL ==> r == Some(0)
    ensures s != null && c != NUL ==> r == Some(LeadingRun(CStr(s[..], 0), [c]))
  {
    if s == null {
      return None;
    }
    if c == NUL {
      return Some(0);
    }
    ghost var t := CStr(s[..], 0);
    CStrSlice(s[..], 0);
    var k := 0;
    while k < s.Length && s[k] == c
      invariant k <= |t|
      invariant forall j :: 0 <= j < k ==> t[j] == c
      decreases s.Length - k
    {
      k := k + 1;
    }
    if k < |t| {
      assert t[k] == s[k];
    }
    SkippedRun(t, [c], k);
    return Some(k);
  }

  /** `ezcfg_util_skip_leading_charlist`: NULL for NULL, `s` itself when `l` is NULL,
      otherwise `s` advanced past the leading characters found in `l`, never past the
      terminator. */
  method SkipLeadingCharlist(s: array?<char>, l: Option<string>) returns (r: Option<nat>)
    ensures r.None? <==> s == null
    ensures s != null && l.None? ==> r == Some(0)
    ensures s != null && l.Some? ==> r == Some(LeadingRun(CStr(s[..], 0), l.value))
    ensures r.Some? ==> r.value <= |CStr(s[..], 0)|
  {
    if s == null {
      return None;
    }
    if l.None? {
      return Some(0);
    }
    ghost var t := CStr(s[..], 0);
    CStrSlice(s[..], 0);
    IndexOfTests(l.value);
    var k := 0;
    while k < s.Length && s[k] != NUL && IndexOf(l.value, s[k]).Some?
      invariant k <= |t|
      invariant forall j :: 0 <= j < k ==> t[j] in l.value
      decreases s.Length - k
    {
      k := k + 1;
    }
    if k < |t| {
      assert t[k] == s[k];
    }
    SkippedRun(t, l.value, k);
    return Some(k);
  }

  /** A run that stops at the first character outside `l` is the leading run. */
  lemma {:induction false} SkippedRun(t: string, l: string, k: nat)
    requires k <= |t|
    requires forall j :: 0 <= j < k ==> t[j] in l
    requires k < |t| ==> t[k] !in l
    ensures LeadingRun(t, l) == k
  {
    if k > 0 {
      SkippedRun(t[1..], l, k - 1);
    }
  }
}
