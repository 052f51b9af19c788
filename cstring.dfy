/**
 * The C library string primitives the modelled code relies on, stated over
 * `seq<char>`.  A C string is the run of characters before the first NUL;
 * `CStr` reads one out of a character buffer.
 */
module CString {
  import opened Wrappers

  const NUL: char := '\0'

  /** `isspace` in the C locale: space, \t, \n, \v, \f, \r. */
  predicate IsSpace(c: char) {
    c == ' ' || 9 <= c as int <= 13
  }

  /** `isprint` in the C locale. */
  predicate IsPrint(c: char) {
    32 <= c as int <= 126
  }

  predicate IsDigit(c: char) {
    '0' <= c <= '9'
  }

  predicate NoNul(s: seq<char>) {
    forall i :: 0 <= i < |s| ==> s[i] != NUL
  }

  /** `tolower` in the C locale: only ASCII upper-case letters change. */
  function ToLower(c: char): (r: char)
    ensures 'A' <= c <= 'Z' ==> r as int == c as int + 32
    ensures !('A' <= c <= 'Z') ==> r == c
  {
    if 'A' <= c <= 'Z' then (c as int + 32) as char else c
  }

  /** `strcasecmp(a, b) == 0`. */
  predicate EqualsIgnoreCase(a: string, b: string) {
    |a| == |b| && forall i :: 0 <= i < |a| ==> ToLower(a[i]) == ToLower(b[i])
  }

  /** `strncmp(s, p, strlen(p)) == 0`: `s` starts with `p`. */
  predicate IsPrefix(p: string, s: string) {
    |p| <= |s| && s[..|p|] == p
  }

  /** The C string that starts at index `i` of the buffer `s`: every character up to
      the first NUL, or up to the end of the buffer when there is none. */
  function CStr(s: seq<char>, i: nat): (r: string)
    decreases |s| - i
  {
    if i >= |s| || s[i] == NUL then [] else [s[i]] + CStr(s, i + 1)
  }

  /** What `snprintf(buf, room, "%s", s)` leaves as a C string. */
  function Truncated(s: string, room: nat): (r: string)
    requires room > 0
    ensures |r| < room && IsPrefix(r, s)
    ensures |s| < room ==> r == s
  {
    if |s| < room then s else s[..room - 1]
  }

  /** The buffer `b` after `snprintf(b + at, room, "%s", text)`: at most `room - 1`
      characters of `text` and a NUL; nothing at all when `room` is 0. */
  function Snprintf(b: seq<char>, at: nat, room: nat, text: string): (r: seq<char>)
    requires at + room <= |b|
    ensures |r| == |b|
  {
    if room == 0 then b
    else
      var k := if |text| < room - 1 then |text| else room - 1;
      b[..at] + text[..k] + [NUL] + b[at + k + 1..]
  }

  /** Element-wise reading of `Snprintf`. */
  lemma SnprintfAt(b: seq<char>, at: nat, room: nat, text: string, j: nat)
    requires at + room <= |b| && j < |b|
    ensures var k := if |text| < room - 1 then |text| else room - 1;
      Snprintf(b, at, room, text)[j] ==
        if room == 0 || j < at || at + k < j then b[j]
        else if j == at + k then NUL
        else text[j - at]
  {
  }

  /** `snprintf` into a buffer: the copying loop of the C library. */
  method PutString(buf: array<char>, at: nat, room: nat, text: string)
    requires at + room <= buf.Length
    modifies buf
    ensures buf[..] == Snprintf(old(buf[..]), at, room, text)
  {
    if room == 0 {
      return;
    }
    var k := if |text| < room - 1 then |text| else room - 1;
    var i := 0;
    while i < k
      invariant i <= k
      invariant forall j :: 0 <= j < buf.Length ==>
        buf[j] == if at <= j < at + i then text[j - at] else old(buf[j])
    {
      buf[at + i] := text[i];
      i := i + 1;
    }
    buf[at + k] := NUL;
    forall j | 0 <= j < buf.Length ensures buf[j] == Snprintf(old(buf[..]), at, room, text)[j] {
      SnprintfAt(old(buf[..]), at, room, text, j);
    }
  }

  /** Two `snprintf` calls, the second right behind the first, write what one call
      with the concatenated text writes. */
  lemma SnprintfThen(b: seq<char>, at: nat, len: nat, x: string, y: string)
    requires 0 < len && at + len <= |b| && |x| <= len
    ensures Snprintf(Snprintf(b, at, len, x), at + |x|, len - |x|, y) == Snprintf(b, at, len, x + y)
  {
    var l := Snprintf(Snprintf(b, at, len, x), at + |x|, len - |x|, y);
    var r := Snprintf(b, at, len, x + y);
    forall j | 0 <= j < |b| ensures l[j] == r[j] {
      SnprintfAt(b, at, len, x, j);
      SnprintfAt(Snprintf(b, at, len, x), at + |x|, len - |x|, y, j);
      SnprintfAt(b, at, len, x + y, j);
    }
  }

  /** A C string is a NUL-free slice of its buffer. */
  lemma {:induction false} CStrSlice(s: seq<char>, i: nat)
    requires i <= |s|
    ensures i + |CStr(s, i)| <= |s|
    ensures CStr(s, i) == s[i..i + |CStr(s, i)|]
    ensures NoNul(CStr(s, i))
    ensures i + |CStr(s, i)| < |s| ==> s[i + |CStr(s, i)|] == NUL
    decreases |s| - i
  {
    if i < |s| && s[i] != NUL {
      CStrSlice(s, i + 1);
    }
  }

  /** A NUL at `k` with none before it ends the C string that starts at `i`. */
  lemma {:induction false} CStrUpTo(s: seq<char>, i: nat, k: nat)
    requires i <= k <= |s|
    requires k < |s| ==> s[k] == NUL
    requires forall j :: i <= j < k ==> s[j] != NUL
    ensures CStr(s, i) == s[i..k]
    decreases k - i
  {
    if i < k {
      CStrUpTo(s, i + 1, k);
      assert s[i..k] == [s[i]] + s[i + 1..k];
    }
  }

  /** A C string depends only on the buffer from its start onwards. */
  lemma {:induction false} CStrFrom(s: seq<char>, t: seq<char>, i: nat)
    requires |s| == |t|
    requires forall j :: i <= j < |s| ==> s[j] == t[j]
    ensures CStr(s, i) == CStr(t, i)
    decreases |s| - i
  {
    if i < |s| {
      CStrFrom(s, t, i + 1);
    }
  }

  /** `strchr(s, c)` for a character other than NUL: the first index of `c`. */
  function IndexOf(s: string, c: char): (r: Option<nat>)
    ensures r.Some? ==> r.value < |s|
  {
    if |s| == 0 then None
    else if s[0] == c then Some(0)
    else
      match IndexOf(s[1..], c)
      case None => None
      case Some(k) => Some(k + 1)
  }

  /** The first `c` of `a + [c] + b` is the one after `a` when `a` has none. */
  lemma IndexOfJoin(a: string, c: char, b: string)
    requires c !in a
    ensures IndexOf(a + [c] + b, c) == Some(|a|)
  {
    var s := a + [c] + b;
    IndexOfMeaning(s, c);
    assert s[|a|] == c;
  }

  /** `IndexOf` finds `c` exactly when `s` holds it, and then its first occurrence. */
  lemma {:induction false} IndexOfMeaning(s: string, c: char)
    ensures IndexOf(s, c).None? <==> c !in s
    ensures IndexOf(s, c).Some? ==> s[IndexOf(s, c).value] == c && c !in s[..IndexOf(s, c).value]
  {
    if |s| > 0 && s[0] != c {
      IndexOfMeaning(s[1..], c);
      assert s == [s[0]] + s[1..];
      if IndexOf(s[1..], c).Some? {
        var k := IndexOf(s[1..], c).value;
        assert s[..k + 1] == [s[0]] + s[1..][..k];
      }
    }
  }

  /** `strchr(l, c)` as a membership test. */
  lemma IndexOfTests(l: string)
    ensures forall c :: IndexOf(l, c).Some? <==> c in l
  {
    forall c ensures IndexOf(l, c).Some? <==> c in l {
      IndexOfMeaning(l, c);
    }
  }

  /** `strrchr(s, c)` for a character other than NUL: the last index of `c`. */
  function LastIndexOf(s: string, c: char): (r: Option<nat>)
    ensures r.None? <==> c !in s
    ensures r.Some? ==> r.value < |s| && s[r.value] == c && c !in s[r.value + 1..]
  {
    if |s| == 0 then None
    else if s[|s| - 1] == c then Some(|s| - 1)
    else
      var t := LastIndexOf(s[..|s| - 1], c);
      assert s == s[..|s| - 1] + [s[|s| - 1]];
      if t.None? then None
      else
        assert s[t.value + 1..] == s[..|s| - 1][t.value + 1..] + [s[|s| - 1]];
        Some(t.value)
  }

  /** `pat` occurs in `s` at index `k`. */
  predicate OccursAt(s: string, pat: string, k: nat) {
    k + |pat| <= |s| && s[k..k + |pat|] == pat
  }

  /** `strstr(s, pat)`: the first index at which `pat` occurs. */
  function Find(s: string, pat: string): (r: Option<nat>)
    ensures r.Some? ==> r.value + |pat| <= |s|
    decreases |s|
  {
    if OccursAt(s, pat, 0) then Some(0)
    else if |s| == 0 then None
    else
      match Find(s[1..], pat)
      case None => None
      case Some(k) => Some(k + 1)
  }

  /** `Find` fails only when `pat` occurs nowhere, and otherwise finds its first
      occurrence. */
  lemma {:induction false} FindMeaning(s: string, pat: string)
    ensures Find(s, pat).None? ==> forall k :: 0 <= k <= |s| ==> !OccursAt(s, pat, k)
    ensures Find(s, pat).Some? ==> OccursAt(s, pat, Find(s, pat).value)
    ensures Find(s, pat).Some? ==> forall k :: 0 <= k < Find(s, pat).value ==> !OccursAt(s, pat, k)
    decreases |s|
  {
    if !OccursAt(s, pat, 0) && |s| > 0 {
      FindMeaning(s[1..], pat);
      match Find(s[1..], pat)
      case None =>
        forall k | 0 <= k <= |s| ensures !OccursAt(s, pat, k) {
          if k > 0 {
            OccursShift(s, pat, k);
          }
        }
      case Some(m) =>
        OccursShift(s, pat, m + 1);
        forall k | 0 <= k < m + 1 ensures !OccursAt(s, pat, k) {
          if k > 0 {
            OccursShift(s, pat, k);
          }
        }
    }
  }

  /** An occurrence with none before it is the one `strstr` finds. */
  lemma FindFirst(s: string, pat: string, e: nat)
    requires OccursAt(s, pat, e)
    requires forall k :: 0 <= k < e ==> !OccursAt(s, pat, k)
    ensures Find(s, pat) == Some(e)
  {
    FindMeaning(s, pat);
  }

  lemma OccursShift(s: string, pat: string, k: nat)
    requires 1 <= k <= |s|
    ensures OccursAt(s, pat, k) <==> OccursAt(s[1..], pat, k - 1)
  {
    if k + |pat| <= |s| {
      var a, b := s[k..k + |pat|], s[1..][k - 1..k - 1 + |pat|];
      forall j | 0 <= j < |pat| ensures a[j] == b[j] {
        assert a[j] == s[k + j] && b[j] == s[1..][k - 1 + j];
      }
      assert a == b;
    }
  }

  /** The value of a run of decimal digits. */
  function DigitsValue(d: string): nat
    requires forall i :: 0 <= i < |d| ==> IsDigit(d[i])
  {
    if |d| == 0 then 0
    else
      assert IsDigit(d[|d| - 1]);
      10 * DigitsValue(d[..|d| - 1]) + (d[|d| - 1] as int - '0' as int)
  }

  /** Decimal rendering of a natural number, as `%d` and `%u` print it. */
  function Decimal(n: nat): (r: string)
    ensures |r| > 0 && forall i :: 0 <= i < |r| ==> IsDigit(r[i])
  {
    if n < 10 then [('0' as int + n) as char]
    else Decimal(n / 10) + [('0' as int + n % 10) as char]
  }

  /** Decimal rendering of an integer, with a leading '-' when negative. */
  function SignedDecimal(n: int): string {
    if n < 0 then "-" + Decimal(-n) else Decimal(n)
  }

  /** Reading back a rendered number gives the number. */
  lemma {:induction false} DecimalRoundTrip(n: nat)
    ensures DigitsValue(Decimal(n)) == n
  {
    if n >= 10 {
      DecimalRoundTrip(n / 10);
      var r := Decimal(n);
      assert r[..|r| - 1] == Decimal(n / 10);
    }
  }

  /** The length of the longest prefix of `s` made of characters satisfying `isspace`. */
  function SpaceRun(s: string): (k: nat)
    ensures k <= |s|
    ensures forall i :: 0 <= i < k ==> IsSpace(s[i])
    ensures k < |s| ==> !IsSpace(s[k])
  {
    if |s| > 0 && IsSpace(s[0]) then 1 + SpaceRun(s[1..]) else 0
  }

  /** The length of the longest prefix of `s` made of decimal digits. */
  function DigitRun(s: string): (k: nat)
    ensures k <= |s|
    ensures forall i :: 0 <= i < k ==> IsDigit(s[i])
    ensures k < |s| ==> !IsDigit(s[k])
  {
    if |s| > 0 && IsDigit(s[0]) then 1 + DigitRun(s[1..]) else 0
  }

  /** A number read in base 10: its value and the index just past its last digit. */
  datatype Number = Number(value: int, end: nat)

  /** The base-10 conversion shared by `strtol` and `sscanf("%d")`: white space, an
      optional sign, then at least one digit.  None when there are no digits. */
  function ScanNumber(s: string): (r: Option<Number>)
    ensures r.Some? ==> 0 < r.value.end <= |s| && IsDigit(s[r.value.end - 1])
    ensures r.Some? ==> r.value.end == |s| || !IsDigit(s[r.value.end])
  {
    var w := SpaceRun(s);
    var signed := w < |s| && (s[w] == '+' || s[w] == '-');
    var start := if signed then w + 1 else w;
    var t := s[start..];
    var n := DigitRun(t);
    if n == 0 then None
    else
      assert s[start..start + n] == t[..n];
      var mag: int := DigitsValue(t[..n]);
      var v: int := if signed && s[w] == '-' then -mag else mag;
      Some(Number(v, start + n))
  }

  /** LONG_MAX and LONG_MIN where `long` is 32 bits wide, as on the targets the
      daemon is built for. */
  const LongMax: int := 0x7FFF_FFFF
  const LongMin: int := -0x8000_0000

  /** `strtol(s, &end, 10)`: the value, saturated at LONG_MAX or LONG_MIN when it
      is out of range, and the end index, which is past every digit even then and
      is 0 (the start of `s`) when no digits were converted. */
  function Strtol(s: string): (r: Number)
    ensures r.end <= |s|
    ensures r.end == 0 ==> r.value == 0
    ensures LongMin <= r.value <= LongMax
  {
    match ScanNumber(s)
    case Some(num) =>
      if num.value > LongMax then Number(LongMax, num.end)
      else if num.value < LongMin then Number(LongMin, num.end)
      else num
    case None => Number(0, 0)
  }

  /** `strtol` reads a rendered number followed by a non-digit back as the number,
      or as LONG_MAX when it does not fit, and stops after its last digit. */
  lemma StrtolOfDecimal(n: nat, rest: string)
    requires rest == [] || !IsDigit(rest[0])
    ensures Strtol(Decimal(n) + rest) == Number(if n <= LongMax then n else LongMax, |Decimal(n)|)
  {
    ScanDecimal(n, rest);
  }

  /** The 16-bit two's complement pattern a `%hd` conversion stores. */
  function Short(v: int): (r: nat)
    ensures r < 0x1_0000
  {
    v % 0x1_0000
  }

  /** A value that fits in 16 bits keeps its value. */
  lemma ShortOfSmall(v: int)
    requires 0 <= v < 0x1_0000
    ensures Short(v) == v
  {
  }

  /** The outcome of `sscanf(s, "%hd.%hd", &major, &minor)`: the count it returns
      (-1 for EOF before the first conversion) and the values it stored. */
  datatype PairScan = PairScan(count: int, first: Option<nat>, second: Option<nat>)

  function ScanShortPair(s: string): (r: PairScan)
    ensures r.count == 2 <==> r.first.Some? && r.second.Some?
    ensures r.second.Some? ==> r.first.Some?
    ensures r.first.Some? ==> r.first.value < 0x1_0000
    ensures r.second.Some? ==> r.second.value < 0x1_0000
  {
    if SpaceRun(s) == |s| then PairScan(-1, None, None)
    else
      match ScanNumber(s)
      case None => PairScan(0, None, None)
      case Some(a) =>
        var rest := s[a.end..];
        if |rest| == 0 || rest[0] != '.' then PairScan(1, Some(Short(a.value)), None)
        else
          match ScanNumber(rest[1..])
          case None => PairScan(1, Some(Short(a.value)), None)
          case Some(b) => PairScan(2, Some(Short(a.value)), Some(Short(b.value)))
  }

  /** The digit run of a rendered number followed by a non-digit is the rendering. */
  lemma {:induction false} DigitRunOfDecimal(d: string, rest: string)
    requires forall i :: 0 <= i < |d| ==> IsDigit(d[i])
    requires rest == [] || !IsDigit(rest[0])
    ensures DigitRun(d + rest) == |d|
  {
    if |d| > 0 {
      DigitRunOfDecimal(d[1..], rest);
      assert (d + rest)[1..] == d[1..] + rest;
    } else {
      assert d + rest == rest;
    }
  }

  /** `%d` reads back what `%d` printed, stopping at the first non-digit. */
  lemma ScanDecimal(n: nat, rest: string)
    requires rest == [] || !IsDigit(rest[0])
    ensures ScanNumber(Decimal(n) + rest) == Some(Number(n, |Decimal(n)|))
  {
    var d := Decimal(n);
    var s := d + rest;
    assert s[0] == d[0];
    assert SpaceRun(s) == 0;
    assert s[0..] == s;
    DigitRunOfDecimal(d, rest);
    assert s[0..|d|] == d;
    DecimalRoundTrip(n);
  }

  /** `sscanf("%hd.%hd")` reads back two numbers printed as `"%d.%d"`. */
  lemma ScanPrintedPair(a: nat, b: nat)
    ensures ScanShortPair(Decimal(a) + "." + Decimal(b)) == PairScan(2, Some(Short(a)), Some(Short(b)))
  {
    var x, y := Decimal(a), Decimal(b);
    ScanDecimal(a, "." + y);
    ScanDecimal(b, []);
    assert y + [] == y;
    ScanPairParts(x, y, a, b);
  }

  /** The two conversions of `%hd.%hd` over a first number `x`, a dot and a second number `y`. */
  lemma ScanPairParts(x: string, y: string, a: int, b: int)
    requires |x| > 0 && IsDigit(x[0])
    requires ScanNumber(x + ("." + y)) == Some(Number(a, |x|))
    requires ScanNumber(y) == Some(Number(b, |y|))
    ensures ScanShortPair(x + "." + y) == PairScan(2, Some(Short(a)), Some(Short(b)))
  {
    var s := x + "." + y;
    assert s == x + ("." + y);
    assert s[0] == x[0];
    assert SpaceRun(s) == 0;
    var rest := s[|x|..];
    assert rest == "." + y;
    assert rest[1..] == y;
  }
}
