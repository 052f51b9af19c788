/**
 * The kernel-module installer and remover of `utils_handle_kernel_module.c`: a
 * static table lists, for some modules, the modules they directly depend on as a
 * comma-separated list.  Installing a module installs its dependencies first, in
 * list order, then runs `insmod` on it; removing a module runs `rmmod` on it first,
 * then removes its dependencies in reverse list order.  Each shell command the
 * functions hand to `system()` is appended to a trace.
 */
module KernelModule {
  import opened Wrappers
  import CString

  const ExitSuccess: int := 0
  const ExitFailure: int := 1

  /** `CMD_INSMOD` and `CMD_RMMOD` come from a header that is not part of this
      model; these stand in for them. */
  const Insmod: string := "insmod"
  const Rmmod: string := "rmmod"

  /** One `mod_depends` entry: a module and the modules it directly depends on, in
      the order its comma list names them. */
  datatype Dep = Dep(name: string, deps: seq<string>)

  const Depends: seq<Dep> := [
    Dep("ahci", ["libahci"]),
    Dep("cfg80211", ["compat"]),
    Dep("ehci-hcd", ["usbcore"]),
    Dep("fat", ["nls_cp437", "nls_iso8859-1"]),
    Dep("ohci-hcd", ["nls_base", "usbcore"]),
    Dep("mac80211", ["compat", "cfg80211"]),
    Dep("nls_cp437", ["nls_base"]),
    Dep("nls_iso8859-1", ["nls_base"]),
    Dep("rt2x00lib", ["compat", "compat_firmware_class", "cfg80211", "mac80211"]),
    Dep("rt2x00usb", ["usbcore", "mac80211", "rt2x00lib"]),
    Dep("rt73usb", ["crc-itu-t", "rt2x00lib", "rt2x00usb"]),
    Dep("uhci-hcd", ["usbcore"]),
    Dep("usbcore", ["nls_base"]),
    Dep("vfat", ["nls_base", "nls_cp437", "nls_iso8859-1", "fat"])
  ]

  /* ----------------------------------------------------------- comma lists */

  predicate NoComma(s: string) {
    ',' !in s
  }

  /** A table entry's list as its string literal writes it: the names joined by
      commas. */
  function CommaList(ds: seq<string>): string
    requires |ds| > 0
  {
    if |ds| == 1 then ds[0] else CommaList(ds[..|ds| - 1]) + "," + ds[|ds| - 1]
  }

  /** The pieces the install loop cuts a list into: up to each comma found with
      `strchr`, and the rest after the last one. */
  function Split(s: string): (r: seq<string>)
    ensures |r| >= 1
    decreases |s|
  {
    match CString.IndexOf(s, ',')
    case None => [s]
    case Some(k) => [s[..k]] + Split(s[k + 1..])
  }

  /** Cutting at the last comma splits off the last piece. */
  lemma {:induction false} SplitLast(a: string, b: string)
    requires NoComma(b)
    ensures Split(a + "," + b) == Split(a) + [b]
    decreases |a|
  {
    var s := a + "," + b;
    CString.IndexOfMeaning(s, ',');
    CString.IndexOfMeaning(a, ',');
    CString.IndexOfMeaning(b, ',');
    var k := CString.IndexOf(s, ',').value;
    if CString.IndexOf(a, ',').Some? {
      var j := CString.IndexOf(a, ',').value;
      assert s[j] == ',';
      assert k == j;
      assert s[..k] == a[..k];
      assert s[k + 1..] == a[k + 1..] + "," + b;
      SplitLast(a[k + 1..], b);
    } else {
      assert s[..|a|] == a;
      assert k == |a|;
      assert s[k + 1..] == b;
      assert Split(b) == [b];
    }
  }

  /** The install loop cuts a table list back into the names it was written from. */
  lemma {:induction false} SplitCommaList(ds: seq<string>)
    requires |ds| > 0 && forall j :: 0 <= j < |ds| ==> NoComma(ds[j])
    ensures Split(CommaList(ds)) == ds
    decreases |ds|
  {
    if |ds| == 1 {
      CString.IndexOfMeaning(ds[0], ',');
    } else {
      var front := ds[..|ds| - 1];
      SplitCommaList(front);
      SplitLast(CommaList(front), ds[|ds| - 1]);
      assert front + [ds[|ds| - 1]] == ds;
    }
  }

  /* ------------------------------------------------------------ the table */

  /** How far a module sits above the modules with no dependencies: strictly more
      than each of its dependencies, which is what makes the recursion stop.  It is
      read off the first character and the length, which tell apart every name the
      table mentions; a name the table does not list has no dependencies, so its
      rank does not matter. */
  function Rank(name: string): nat {
    if |name| == 0 then 0
    else
      var c := name[0];
      if c == 'r' then (if |name| == 7 then 5 else if |name| >= 3 && name[|name| - 3] == 'u' then 4 else 3)  // rt73usb, rt2x00usb, rt2x00lib
      else if c == 'v' then 3                                                                // vfat
      else if c == 'e' || c == 'o' || c == 'f' || c == 'm' then 2                            // ehci-hcd, ohci-hcd, fat, mac80211
      else if c == 'u' then (if |name| == 8 then 2 else 1)                                   // uhci-hcd, usbcore
      else if c == 'n' then (if |name| == 8 then 0 else 1)                                   // nls_base, nls_cp437, nls_iso8859-1
      else if c == 'a' || (c == 'c' && |name| == 8) then 1                                   // ahci, cfg80211
      else 0
  }

  /** Every dependency in `t` ranks below its module, so following dependencies
      stops. */
  predicate Acyclic(t: seq<Dep>) {
    forall i, j :: 0 <= i < |t| && 0 <= j < |t[i].deps| ==> Rank(t[i].deps[j]) < Rank(t[i].name)
  }

  /** Every list in `t` names at least one module, and no name in a list holds a
      comma, so each list is written as a comma-separated string. */
  predicate Plain(t: seq<Dep>) {
    forall i :: 0 <= i < |t| ==>
      |t[i].deps| > 0 && forall j :: 0 <= j < |t[i].deps| ==> NoComma(t[i].deps[j])
  }

  /** The table is acyclic. */
  lemma TableAcyclic()
    ensures Acyclic(Depends)
  {
    AcyclicFirst();
    AcyclicRest();
  }

  lemma AcyclicFirst()
    ensures forall i, j :: 0 <= i < 7 && 0 <= j < |Depends[i].deps| ==> Rank(Depends[i].deps[j]) < Rank(Depends[i].name)
  {
  }

  lemma AcyclicRest()
    ensures forall i, j :: 7 <= i < |Depends| && 0 <= j < |Depends[i].deps| ==> Rank(Depends[i].deps[j]) < Rank(Depends[i].name)
  {
  }

  lemma PlainFirst()
    ensures forall i :: 0 <= i < 4 ==>
      |Depends[i].deps| > 0 && forall j :: 0 <= j < |Depends[i].deps| ==> NoComma(Depends[i].deps[j])
  {
  }

  lemma PlainSecond()
    ensures forall i :: 4 <= i < 8 ==>
      |Depends[i].deps| > 0 && forall j :: 0 <= j < |Depends[i].deps| ==> NoComma(Depends[i].deps[j])
  {
  }

  lemma PlainMiddle()
    ensures forall i :: 8 <= i < 11 ==>
      |Depends[i].deps| > 0 && forall j :: 0 <= j < |Depends[i].deps| ==> NoComma(Depends[i].deps[j])
  {
  }

  lemma PlainRest()
    ensures forall i :: 11 <= i < |Depends| ==>
      |Depends[i].deps| > 0 && forall j :: 0 <= j < |Depends[i].deps| ==> NoComma(Depends[i].deps[j])
  {
  }

  /** The table's lists are nonempty comma lists. */
  lemma TablePlain()
    ensures Plain(Depends)
  {
    PlainFirst();
    PlainSecond();
    PlainMiddle();
    PlainRest();
  }

  /** No two entries of `t` name the same module. */
  predicate Distinct(t: seq<Dep>) {
    forall i, j :: 0 <= i < j < |t| ==> t[i].name != t[j].name
  }

  /** The table's names are distinct, so a name matches at most one entry. */
  lemma TableNamesDistinct()
    ensures Distinct(Depends)
  {
    assert forall i, j :: 0 <= i < j < |Depends| ==> Depends[i].name != Depends[j].name;
  }

  /* ------------------------------------------------------------ the orders */

  /** The modules `utils_install_kernel_module(name, …)` loads under table `t`, in
      the order it runs `insmod` on them: what the lists of `name`'s entries pull
      in, then `name` itself.  Nothing is de-duplicated. */
  function InstallOrder(t: seq<Dep>, name: string): seq<string>
    requires Acyclic(t)
    decreases Rank(name), 2
  {
    InstalledFirst(t, name, |t|) + [name]
  }

  /** What the lists of the first `n` entries named `name` pull in. */
  function InstalledFirst(t: seq<Dep>, name: string, n: nat): seq<string>
    requires Acyclic(t) && n <= |t|
    decreases Rank(name), 1, n
  {
    if n == 0 then []
    else InstalledFirst(t, name, n - 1) + if t[n - 1].name == name then InstallList(t, t[n - 1].deps, Rank(name)) else []
  }

  /** Each module of `ds` installed in turn, first to last. */
  function InstallList(t: seq<Dep>, ds: seq<string>, bound: nat): seq<string>
    requires Acyclic(t) && forall k :: 0 <= k < |ds| ==> Rank(ds[k]) < bound
    decreases bound, 0, |ds|
  {
    if ds == [] then [] else InstallList(t, ds[..|ds| - 1], bound) + InstallOrder(t, ds[|ds| - 1])
  }

  /** The modules `utils_remove_kernel_module(name)` unloads under table `t`, in the
      order it runs `rmmod` on them: `name` itself, then what the lists of its
      entries pull in. */
  function RemoveOrder(t: seq<Dep>, name: string): seq<string>
    requires Acyclic(t)
    decreases Rank(name), 2
  {
    [name] + RemovedAfter(t, name, |t|)
  }

  /** What the lists of the first `n` entries named `name` pull in. */
  function RemovedAfter(t: seq<Dep>, name: string, n: nat): seq<string>
    requires Acyclic(t) && n <= |t|
    decreases Rank(name), 1, n
  {
    if n == 0 then []
    else RemovedAfter(t, name, n - 1) + if t[n - 1].name == name then RemoveList(t, t[n - 1].deps, Rank(name)) else []
  }

  /** Each module of `ds` removed in turn, last to first. */
  function RemoveList(t: seq<Dep>, ds: seq<string>, bound: nat): seq<string>
    requires Acyclic(t) && forall k :: 0 <= k < |ds| ==> Rank(ds[k]) < bound
    decreases bound, 0, |ds|
  {
    if ds == [] then [] else RemoveList(t, ds[1..], bound) + RemoveOrder(t, ds[0])
  }

  /* ---------------------------------------------------------- the commands */

  /** `args` as the insmod format receives it: NULL becomes the empty string. */
  function ArgText(args: Option<string>): string {
    if args.None? then "" else args.value
  }

  /** The buffer size the installer allocates for its insmod command. */
  function InsmodSize(kver: string, name: string, q: string): nat {
    |Insmod| + 14 + (|kver| + 1) + (|name| + 3) + (|q| + 2)
  }

  /** `"%s /lib/modules/%s/%s.ko %s"` filled in. */
  function InsmodText(kver: string, name: string, q: string): string {
    Insmod + " /lib/modules/" + kver + "/" + name + ".ko " + q
  }

  /** The buffer size the remover allocates for its rmmod command. */
  function RmmodSize(name: string): nat {
    |Rmmod| + |name| + 2
  }

  /** `"%s %s"` filled in. */
  function RmmodText(name: string): string {
    Rmmod + " " + name
  }

  /** The insmod buffer holds the whole command and its NUL: `snprintf` cuts
      nothing off. */
  lemma InsmodFits(kver: string, name: string, q: string)
    ensures |InsmodText(kver, name, q)| + 1 == InsmodSize(kver, name, q)
    ensures CString.Truncated(InsmodText(kver, name, q), InsmodSize(kver, name, q)) == InsmodText(kver, name, q)
  {
  }

  /** The rmmod buffer holds the whole command and its NUL. */
  lemma RmmodFits(name: string)
    ensures |RmmodText(name)| + 1 == RmmodSize(name)
    ensures CString.Truncated(RmmodText(name), RmmodSize(name)) == RmmodText(name)
  {
  }

  /** The insmod commands for `ms`, loaded as dependencies (no arguments); none
      when the kernel version is unknown. */
  function InsmodAll(kver: Option<string>, ms: seq<string>): (r: seq<string>)
    ensures kver.None? ==> r == []
    ensures kver.Some? ==> |r| == |ms|
  {
    if kver.None? || ms == [] then []
    else InsmodAll(kver, ms[..|ms| - 1]) + [InsmodText(kver.value, ms[|ms| - 1], "")]
  }

  lemma {:induction false} InsmodAllAppend(kver: Option<string>, a: seq<string>, b: seq<string>)
    ensures InsmodAll(kver, a + b) == InsmodAll(kver, a) + InsmodAll(kver, b)
    decreases |b|
  {
    if kver.Some? && b != [] {
      assert (a + b)[..|a + b| - 1] == a + b[..|b| - 1];
      InsmodAllAppend(kver, a, b[..|b| - 1]);
    } else if kver.Some? {
      assert a + b == a;
    }
  }

  /** The rmmod commands for `ms`, in order. */
  function RmmodAll(ms: seq<string>): (r: seq<string>)
    ensures |r| == |ms|
  {
    if ms == [] then [] else RmmodAll(ms[..|ms| - 1]) + [RmmodText(ms[|ms| - 1])]
  }

  lemma {:induction false} RmmodAllAppend(a: seq<string>, b: seq<string>)
    ensures RmmodAll(a + b) == RmmodAll(a) + RmmodAll(b)
    decreases |b|
  {
    if b != [] {
      assert (a + b)[..|a + b| - 1] == a + b[..|b| - 1];
      RmmodAllAppend(a, b[..|b| - 1]);
    } else {
      assert a + b == a;
    }
  }

  /** The commands `utils_install_kernel_module(name, args)` runs: an insmod per
      dependency loaded, then the module's own, carrying `args`; none at all when
      the kernel version is unknown. */
  function InstallTrace(t: seq<Dep>, kver: Option<string>, name: string, args: Option<string>): seq<string>
    requires Acyclic(t)
  {
    InsmodAll(kver, InstalledFirst(t, name, |t|))
    + if kver.None? then [] else [InsmodText(kver.value, name, ArgText(args))]
  }

  /** A dependency is loaded without arguments, like every module before it. */
  lemma InstallTraceOfDependency(t: seq<Dep>, kver: Option<string>, name: string)
    requires Acyclic(t)
    ensures InstallTrace(t, kver, name, None) == InsmodAll(kver, InstallOrder(t, name))
  {
    InsmodAllAppend(kver, InstalledFirst(t, name, |t|), [name]);
  }

  /** Appending in two steps is appending the two at once. */
  lemma AppendTwice(a: seq<string>, b: seq<string>, c: seq<string>)
    ensures a + b + c == a + (b + c)
  {
  }

  /** One more table entry in the install loop. */
  lemma InstalledStep(t: seq<Dep>, kver: Option<string>, name: string, i: nat)
    requires Acyclic(t) && i < |t|
    ensures InsmodAll(kver, InstalledFirst(t, name, i + 1))
      == InsmodAll(kver, InstalledFirst(t, name, i))
         + if t[i].name == name then InsmodAll(kver, InstallList(t, t[i].deps, Rank(name))) else []
  {
    if t[i].name == name {
      InsmodAllAppend(kver, InstalledFirst(t, name, i), InstallList(t, t[i].deps, Rank(name)));
    } else {
      assert InstalledFirst(t, name, i + 1) == InstalledFirst(t, name, i);
    }
  }

  /** One more table entry in the remove loop. */
  lemma RemovedStep(t: seq<Dep>, name: string, i: nat)
    requires Acyclic(t) && i < |t|
    ensures RmmodAll([name] + RemovedAfter(t, name, i + 1))
      == RmmodAll([name] + RemovedAfter(t, name, i))
         + if t[i].name == name then RmmodAll(RemoveList(t, t[i].deps, Rank(name))) else []
  {
    if t[i].name == name {
      assert [name] + RemovedAfter(t, name, i + 1) == ([name] + RemovedAfter(t, name, i)) + RemoveList(t, t[i].deps, Rank(name));
      RmmodAllAppend([name] + RemovedAfter(t, name, i), RemoveList(t, t[i].deps, Rank(name)));
    } else {
      assert RemovedAfter(t, name, i + 1) == RemovedAfter(t, name, i);
    }
  }

  /** One more piece in the install walk. */
  lemma InstallListStep(t: seq<Dep>, kver: Option<string>, done: seq<string>, piece: string, bound: nat)
    requires Acyclic(t) && Rank(piece) < bound && forall k :: 0 <= k < |done| ==> Rank(done[k]) < bound
    ensures forall k :: 0 <= k < |done + [piece]| ==> Rank((done + [piece])[k]) < bound
    ensures InsmodAll(kver, InstallList(t, done + [piece], bound))
      == InsmodAll(kver, InstallList(t, done, bound)) + InstallTrace(t, kver, piece, None)
  {
    assert (done + [piece])[..|done|] == done;
    InstallTraceOfDependency(t, kver, piece);
    InsmodAllAppend(kver, InstallList(t, done, bound), InstallOrder(t, piece));
  }

  /** One more piece in the remove walk. */
  lemma RemoveListStep(t: seq<Dep>, done: seq<string>, piece: string, bound: nat)
    requires Acyclic(t) && Rank(piece) < bound && forall k :: 0 <= k < |done| ==> Rank(done[k]) < bound
    ensures forall k :: 0 <= k < |[piece] + done| ==> Rank(([piece] + done)[k]) < bound
    ensures RmmodAll(RemoveList(t, [piece] + done, bound))
      == RmmodAll(RemoveList(t, done, bound)) + RmmodAll(RemoveOrder(t, piece))
  {
    assert ([piece] + done)[1..] == done;
    RmmodAllAppend(RemoveList(t, done, bound), RemoveOrder(t, piece));
  }

  /** The `strchr` cut: the piece before the first comma, then the pieces after it. */
  lemma SplitFirst(c: string)
    ensures CString.IndexOf(c, ',').Some? ==>
      Split(c) == [c[..CString.IndexOf(c, ',').value]] + Split(c[CString.IndexOf(c, ',').value + 1..])
    ensures CString.IndexOf(c, ',').None? ==> Split(c) == [c]
  {
  }

  /** The `strrchr` cut: the pieces before the last comma, then the piece after it. */
  lemma SplitAtLast(c: string)
    ensures CString.LastIndexOf(c, ',').Some? ==>
      Split(c) == Split(c[..CString.LastIndexOf(c, ',').value]) + [c[CString.LastIndexOf(c, ',').value + 1..]]
    ensures CString.LastIndexOf(c, ',').None? ==> Split(c) == [c]
  {
    var q := CString.LastIndexOf(c, ',');
    if q.Some? {
      assert c == c[..q.value] + "," + c[q.value + 1..];
      SplitLast(c[..q.value], c[q.value + 1..]);
    } else {
      CString.IndexOfMeaning(c, ',');
    }
  }

  /* ------------------------------------------------------------ the system */

  /** The host the installer runs on. */
  class System {
    /** What `utils_get_kernel_version` reports; None when it cannot tell. */
    const kernelVersion: Option<string>
    /** The commands handed to `system()`, oldest first. */
    var trace: seq<string>

    constructor (kernelVersion: Option<string>)
      ensures this.kernelVersion == kernelVersion && trace == []
    {
      this.kernelVersion := kernelVersion;
      trace := [];
    }

    /** `system(cmd)`. */
    method Run(cmd: string)
      modifies this`trace
      ensures trace == old(trace) + [cmd]
    {
      trace := trace + [cmd];
    }
  }

  /** `utils_install_kernel_module` over the static table. */
  method Install(sys: System, name: Option<string>, args: Option<string>) returns (ret: int)
    modifies sys
    ensures name.None? ==> ret == ExitFailure && sys.trace == old(sys.trace)
    ensures name.Some? ==> ret == (if sys.kernelVersion.Some? then ExitSuccess else ExitFailure)
    ensures name.Some? ==> Acyclic(Depends) && sys.trace == old(sys.trace) + InstallTrace(Depends, sys.kernelVersion, name.value, args)
  {
    TableAcyclic();
    TablePlain();
    ret := InstallWith(Depends, sys, name, args);
  }

  /** `utils_remove_kernel_module` over the static table. */
  method Remove(sys: System, name: Option<string>) returns (ret: int)
    modifies sys
    ensures name.None? ==> ret == ExitFailure && sys.trace == old(sys.trace)
    ensures name.Some? ==> ret == ExitSuccess && Acyclic(Depends) && sys.trace == old(sys.trace) + RmmodAll(RemoveOrder(Depends, name.value))
  {
    TableAcyclic();
    TablePlain();
    ret := RemoveWith(Depends, sys, name);
  }

  /** `utils_install_kernel_module` under table `t`: NULL `name` fails at once;
      otherwise every entry named `name` has its list installed, then the module
      itself is loaded when the kernel version is known. */
  method InstallWith(t: seq<Dep>, sys: System, name: Option<string>, args: Option<string>) returns (ret: int)
    requires Acyclic(t) && Plain(t)
    modifies sys
    ensures name.None? ==> ret == ExitFailure && sys.trace == old(sys.trace)
    ensures name.Some? ==> ret == (if sys.kernelVersion.Some? then ExitSuccess else ExitFailure)
    ensures name.Some? ==> sys.trace == old(sys.trace) + InstallTrace(t, sys.kernelVersion, name.value, args)
    decreases if name.Some? then Rank(name.value) else 0, 2
  {
    ret := ExitFailure;
    if name.None? {
      return;
    }
    var n := name.value;
    for i := 0 to |t|
      invariant sys.trace == old(sys.trace) + InsmodAll(sys.kernelVersion, InstalledFirst(t, n, i))
    {
      InstalledStep(t, sys.kernelVersion, n, i);
      if t[i].name == n {
        var l := CommaList(t[i].deps);
        SplitCommaList(t[i].deps);
        InstallWalk(t, sys, l, Rank(n));
        AppendTwice(old(sys.trace), InsmodAll(sys.kernelVersion, InstalledFirst(t, n, i)), InsmodAll(sys.kernelVersion, InstallList(t, t[i].deps, Rank(n))));
      }
    }
    var kver := sys.kernelVersion;
    if kver.None? {
      return;
    }
    var q := ArgText(args);
    var size := InsmodSize(kver.value, n, q);
    InsmodFits(kver.value, n, q);
    sys.Run(CString.Truncated(InsmodText(kver.value, n, q), size));
    ret := ExitSuccess;
  }

  /** The `strchr` walk over a copy of a list: each piece up to a comma is cut off
      by writing a NUL over the comma and installed, then the walk goes on after it. */
  method InstallWalk(t: seq<Dep>, sys: System, l: string, bound: nat)
    requires Acyclic(t) && Plain(t)
    requires forall k :: 0 <= k < |Split(l)| ==> Rank(Split(l)[k]) < bound
    modifies sys
    ensures sys.trace == old(sys.trace) + InsmodAll(sys.kernelVersion, InstallList(t, Split(l), bound))
    decreases bound, 1
  {
    var p: Option<string> := Some(l);
    ghost var done: seq<string> := [];
    while p.Some?
      invariant p.Some? ==> Split(l) == done + Split(p.value)
      invariant p.None? ==> Split(l) == done
      invariant forall k :: 0 <= k < |done| ==> Rank(done[k]) < bound
      invariant sys.trace == old(sys.trace) + InsmodAll(sys.kernelVersion, InstallList(t, done, bound))
      decreases if p.Some? then |p.value| + 1 else 0
    {
      var c := p.value;
      var q := CString.IndexOf(c, ',');
      var piece := if q.Some? then c[..q.value] else c;
      SplitFirst(c);
      var after := if q.Some? then Split(c[q.value + 1..]) else [];
      AppendTwice(done, [piece], after);
      assert Split(l)[|done|] == piece;
      var _ := InstallWith(t, sys, Some(piece), None);
      InstallListStep(t, sys.kernelVersion, done, piece, bound);
      AppendTwice(old(sys.trace), InsmodAll(sys.kernelVersion, InstallList(t, done, bound)), InstallTrace(t, sys.kernelVersion, piece, None));
      done := done + [piece];
      p := if q.Some? then Some(c[q.value + 1..]) else None;
    }
  }

  /** `utils_remove_kernel_module` under table `t`: NULL `name` fails at once;
      otherwise the module is unloaded first, then every entry named `name` has its
      list removed. */
  method RemoveWith(t: seq<Dep>, sys: System, name: Option<string>) returns (ret: int)
    requires Acyclic(t) && Plain(t)
    modifies sys
    ensures name.None? ==> ret == ExitFailure && sys.trace == old(sys.trace)
    ensures name.Some? ==> ret == ExitSuccess && sys.trace == old(sys.trace) + RmmodAll(RemoveOrder(t, name.value))
    decreases if name.Some? then Rank(name.value) else 0, 2
  {
    ret := ExitFailure;
    if name.None? {
      return;
    }
    var n := name.value;
    var size := RmmodSize(n);
    RmmodFits(n);
    sys.Run(CString.Truncated(RmmodText(n), size));
    for i := 0 to |t|
      invariant sys.trace == old(sys.trace) + RmmodAll([n] + RemovedAfter(t, n, i))
    {
      RemovedStep(t, n, i);
      if t[i].name == n {
        var l := CommaList(t[i].deps);
        SplitCommaList(t[i].deps);
        RemoveWalk(t, sys, l, Rank(n));
        AppendTwice(old(sys.trace), RmmodAll([n] + RemovedAfter(t, n, i)), RmmodAll(RemoveList(t, t[i].deps, Rank(n))));
      }
    }
    ret := ExitSuccess;
  }

  /** The `strrchr` walk over a copy of a list: the piece after the last comma is
      removed, a NUL over that comma cuts it off, and the walk starts again from the
      front. */
  method RemoveWalk(t: seq<Dep>, sys: System, l: string, bound: nat)
    requires Acyclic(t) && Plain(t)
    requires forall k :: 0 <= k < |Split(l)| ==> Rank(Split(l)[k]) < bound
    modifies sys
    ensures sys.trace == old(sys.trace) + RmmodAll(RemoveList(t, Split(l), bound))
    decreases bound, 1
  {
    var p: Option<string> := Some(l);
    ghost var done: seq<string> := [];
    while p.Some?
      invariant p.Some? ==> Split(l) == Split(p.value) + done
      invariant p.None? ==> Split(l) == done
      invariant forall k :: 0 <= k < |done| ==> Rank(done[k]) < bound
      invariant sys.trace == old(sys.trace) + RmmodAll(RemoveList(t, done, bound))
      decreases if p.Some? then |p.value| + 1 else 0
    {
      var c := p.value;
      var q := CString.LastIndexOf(c, ',');
      var piece := if q.Some? then c[q.value + 1..] else c;
      SplitAtLast(c);
      var before := if q.Some? then Split(c[..q.value]) else [];
      AppendTwice(before, [piece], done);
      assert Split(l)[|before|] == piece;
      var _ := RemoveWith(t, sys, Some(piece));
      RemoveListStep(t, done, piece, bound);
      AppendTwice(old(sys.trace), RmmodAll(RemoveList(t, done, bound)), RmmodAll(RemoveOrder(t, piece)));
      done := [piece] + done;
      p := if q.Some? then Some(c[..q.value]) else None;
    }
  }

  /* ---------------------------------------------------------- the properties */

  function Reverse(s: seq<string>): (r: seq<string>)
    ensures |r| == |s|
  {
    if s == [] then [] else Reverse(s[1..]) + [s[0]]
  }

  lemma {:induction false} ReverseAppend(a: seq<string>, b: seq<string>)
    ensures Reverse(a + b) == Reverse(b) + Reverse(a)
    decreases |a|
  {
    if a == [] {
      assert a + b == b;
    } else {
      assert (a + b)[1..] == a[1..] + b;
      ReverseAppend(a[1..], b);
    }
  }

  /** No entry among the first `n` is named `name`: they pull nothing in. */
  lemma {:induction false} NothingFirst(t: seq<Dep>, name: string, n: nat)
    requires Acyclic(t) && n <= |t|
    requires forall i :: 0 <= i < n ==> t[i].name != name
    ensures InstalledFirst(t, name, n) == [] && RemovedAfter(t, name, n) == []
  {
    if n > 0 {
      NothingFirst(t, name, n - 1);
    }
  }

  /** A module the table does not list is loaded, or unloaded, on its own. */
  lemma Unlisted(t: seq<Dep>, name: string)
    requires Acyclic(t)
    requires forall i :: 0 <= i < |t| ==> t[i].name != name
    ensures InstallOrder(t, name) == [name] && RemoveOrder(t, name) == [name]
  {
    NothingFirst(t, name, |t|);
  }

  /** Entry `e` is the only one named `name`: the first `n` entries pull in its list
      once `n` passes it, and nothing before. */
  lemma {:induction false} OnlyEntry(t: seq<Dep>, e: nat, n: nat)
    requires Acyclic(t) && Distinct(t) && e < |t| && n <= |t|
    ensures InstalledFirst(t, t[e].name, n) == if e < n then InstallList(t, t[e].deps, Rank(t[e].name)) else []
    ensures RemovedAfter(t, t[e].name, n) == if e < n then RemoveList(t, t[e].deps, Rank(t[e].name)) else []
  {
    if n > 0 {
      OnlyEntry(t, e, n - 1);
      if n - 1 == e {
        assert InstalledFirst(t, t[e].name, n - 1) == [];
      }
    }
  }

  /** Installing a listed module loads its list first to last, then the module;
      removing it unloads the module, then its list last to first. */
  lemma Listed(t: seq<Dep>, e: nat)
    requires Acyclic(t) && Distinct(t) && e < |t|
    ensures InstallOrder(t, t[e].name) == InstallList(t, t[e].deps, Rank(t[e].name)) + [t[e].name]
    ensures RemoveOrder(t, t[e].name) == [t[e].name] + RemoveList(t, t[e].deps, Rank(t[e].name))
  {
    OnlyEntry(t, e, |t|);
  }

  /** Removing the front of a list comes last. */
  lemma {:induction false} RemoveListSnoc(t: seq<Dep>, ds: seq<string>, d: string, bound: nat)
    requires Acyclic(t) && Rank(d) < bound && forall k :: 0 <= k < |ds| ==> Rank(ds[k]) < bound
    ensures forall k :: 0 <= k < |ds + [d]| ==> Rank((ds + [d])[k]) < bound
    ensures RemoveList(t, ds + [d], bound) == RemoveOrder(t, d) + RemoveList(t, ds, bound)
    decreases |ds|
  {
    if ds != [] {
      assert (ds + [d])[1..] == ds[1..] + [d];
      RemoveListSnoc(t, ds[1..], d, bound);
      AppendTwice(RemoveOrder(t, d), RemoveList(t, ds[1..], bound), RemoveOrder(t, ds[0]));
    } else {
      assert (ds + [d])[1..] == [];
    }
  }

  /** Removal unloads exactly the modules installation loads, in reverse order. */
  lemma {:induction false} RemoveReversesInstall(t: seq<Dep>, name: string)
    requires Acyclic(t) && Distinct(t)
    ensures RemoveOrder(t, name) == Reverse(InstallOrder(t, name))
    decreases Rank(name), 2
  {
    FirstReversed(t, name, |t|);
    ReverseAppend(InstalledFirst(t, name, |t|), [name]);
    assert Reverse([name]) == [name];
  }

  lemma {:induction false} FirstReversed(t: seq<Dep>, name: string, n: nat)
    requires Acyclic(t) && Distinct(t) && n <= |t|
    ensures RemovedAfter(t, name, n) == Reverse(InstalledFirst(t, name, n))
    decreases Rank(name), 1, n
  {
    if n > 0 {
      if t[n - 1].name == name {
        EntryReversed(t, n - 1);
      } else {
        FirstReversed(t, name, n - 1);
        var a, b := InstalledFirst(t, name, n - 1), RemovedAfter(t, name, n - 1);
        assert a + [] == a && b + [] == b;
      }
    }
  }

  /** The entry at `e` is the first one named as it is. */
  lemma {:induction false} EntryReversed(t: seq<Dep>, e: nat)
    requires Acyclic(t) && Distinct(t) && e < |t|
    ensures RemovedAfter(t, t[e].name, e + 1) == Reverse(InstalledFirst(t, t[e].name, e + 1))
    decreases Rank(t[e].name), 1, e + 1, 0
  {
    OnlyEntry(t, e, e + 1);
    ListReversed(t, t[e].deps, Rank(t[e].name));
  }

  lemma {:induction false} ListReversed(t: seq<Dep>, ds: seq<string>, bound: nat)
    requires Acyclic(t) && Distinct(t) && forall k :: 0 <= k < |ds| ==> Rank(ds[k]) < bound
    ensures RemoveList(t, ds, bound) == Reverse(InstallList(t, ds, bound))
    decreases bound, 0, |ds|
  {
    if ds != [] {
      var front, last := ds[..|ds| - 1], ds[|ds| - 1];
      ListReversed(t, front, bound);
      RemoveReversesInstall(t, last);
      ReverseAppend(InstallList(t, front, bound), InstallOrder(t, last));
      assert front + [last] == ds;
      RemoveListSnoc(t, front, last, bound);
    }
  }

  /** The `k`-th dependency command loads the `k`-th module. */
  lemma {:induction false} InsmodAllAt(v: string, ms: seq<string>, k: nat)
    requires k < |ms|
    ensures InsmodAll(Some(v), ms)[k] == InsmodText(v, ms[k], "")
    decreases |ms|
  {
    if k < |ms| - 1 {
      InsmodAllAt(v, ms[..|ms| - 1], k);
    }
  }

  /** The `k`-th rmmod command unloads the `k`-th module. */
  lemma {:induction false} RmmodAllAt(ms: seq<string>, k: nat)
    requires k < |ms|
    ensures RmmodAll(ms)[k] == RmmodText(ms[k])
    decreases |ms|
  {
    if k < |ms| - 1 {
      RmmodAllAt(ms[..|ms| - 1], k);
    }
  }

  /** With the kernel version known, the install commands load `InstallOrder` one
      module each, in order, the last being the module itself with its arguments;
      without it there are none. */
  lemma InstallCommands(t: seq<Dep>, v: string, name: string, args: Option<string>)
    requires Acyclic(t)
    ensures var c := InstallTrace(t, Some(v), name, args);
      var o := InstallOrder(t, name);
      |c| == |o| && c[|c| - 1] == InsmodText(v, name, ArgText(args))
      && forall k :: 0 <= k < |c| - 1 ==> c[k] == InsmodText(v, o[k], "")
    ensures InstallTrace(t, None, name, args) == []
  {
    var c := InstallTrace(t, Some(v), name, args);
    var first := InstalledFirst(t, name, |t|);
    forall k | 0 <= k < |c| - 1
      ensures c[k] == InsmodText(v, InstallOrder(t, name)[k], "")
    {
      InsmodAllAt(v, first, k);
    }
  }

  /** The remove commands unload `RemoveOrder` one module each, in order. */
  lemma RemoveCommands(t: seq<Dep>, name: string)
    requires Acyclic(t)
    ensures var c := RmmodAll(RemoveOrder(t, name));
      |c| == |RemoveOrder(t, name)| && c[0] == RmmodText(name)
      && forall k :: 0 <= k < |c| ==> c[k] == RmmodText(RemoveOrder(t, name)[k])
  {
    forall k | 0 <= k < |RemoveOrder(t, name)|
      ensures RmmodAll(RemoveOrder(t, name))[k] == RmmodText(RemoveOrder(t, name)[k])
    {
      RmmodAllAt(RemoveOrder(t, name), k);
    }
  }

  /** Over the static table, `utils_remove_kernel_module` unloads what
      `utils_install_kernel_module` loads, in reverse order. */
  lemma RemoveUndoesInstall(name: string)
    ensures Acyclic(Depends) && RemoveOrder(Depends, name) == Reverse(InstallOrder(Depends, name))
  {
    TableAcyclic();
    TableNamesDistinct();
    RemoveReversesInstall(Depends, name);
  }

  /** `nls_base` has no entry: it loads on its own. */
  lemma NlsBaseAlone()
    ensures Acyclic(Depends) && InstallOrder(Depends, "nls_base") == ["nls_base"]
  {
    TableAcyclic();
    assert forall i :: 0 <= i < |Depends| ==> Depends[i].name != "nls_base";
    Unlisted(Depends, "nls_base");
  }

  /** A code page loads `nls_base` first. */
  lemma CodePageOrder(e: nat)
    requires Acyclic(Depends) && Distinct(Depends) && e < |Depends| && Depends[e].deps == ["nls_base"]
    requires InstallOrder(Depends, "nls_base") == ["nls_base"]
    ensures InstallOrder(Depends, Depends[e].name) == ["nls_base", Depends[e].name]
  {
    Listed(Depends, e);
    assert InstallList(Depends, ["nls_base"], Rank(Depends[e].name)) == InstallOrder(Depends, "nls_base");
  }

  /** Nothing is de-duplicated: installing `fat` loads `nls_base` once for each of
      the two code pages that need it. */
  lemma FatLoadsNlsBaseTwice()
    ensures Acyclic(Depends)
      && InstallOrder(Depends, "fat") == ["nls_base", "nls_cp437", "nls_base", "nls_iso8859-1", "fat"]
  {
    FatEntries();
    TableAcyclic();
    TableNamesDistinct();
    NlsBaseAlone();
    CodePageOrder(6);
    CodePageOrder(7);
    Listed(Depends, 3);
    InstallListPair(Depends, "nls_cp437", "nls_iso8859-1", Rank("fat"));
  }

  /** The entries of `fat` and of its two code pages. */
  lemma FatEntries()
    ensures Depends[3] == Dep("fat", ["nls_cp437", "nls_iso8859-1"])
    ensures Depends[6] == Dep("nls_cp437", ["nls_base"])
    ensures Depends[7] == Dep("nls_iso8859-1", ["nls_base"])
  {
  }

  /** A list of two modules loads the first, then the second. */
  lemma InstallListPair(t: seq<Dep>, a: string, b: string, bound: nat)
    requires Acyclic(t) && Rank(a) < bound && Rank(b) < bound
    ensures InstallList(t, [a, b], bound) == InstallOrder(t, a) + InstallOrder(t, b)
  {
    assert [a, b][..1] == [a] && [a][..0] == [];
    assert InstallList(t, [a], bound) == [] + InstallOrder(t, a);
    assert [] + InstallOrder(t, a) == InstallOrder(t, a);
  }
}
