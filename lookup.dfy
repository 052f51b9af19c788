/**
 * `lookup_netmask` of the bootp tools: the default subnet mask of a classful IPv4
 * address (section 3.2 of RFC 791).  Addresses travel in network byte order; the
 * host is taken to be little-endian, so `ntohl` and `htonl` are both a byte swap.
 */
module Lookup {
  import opened Wrappers

  const ClassANet: bv32 := 0xFF00_0000
  const ClassBNet: bv32 := 0xFFFF_0000
  const ClassCNet: bv32 := 0xFFFF_FF00

  /** `ntohl` / `htonl` on a little-endian host. */
  function ByteSwap(x: bv32): bv32 {
    (x << 24) | ((x << 8) & 0x00FF_0000) | ((x >> 8) & 0x0000_FF00) | (x >> 24)
  }

  /** Converting to host order and back is the identity. */
  lemma ByteSwapInvolution(x: bv32)
    ensures ByteSwap(ByteSwap(x)) == x
  {
  }

  /** `IN_CLASSA`: the top bit is 0. */
  predicate InClassA(a: bv32) { a & 0x8000_0000 == 0 }

  /** `IN_CLASSB`: the top two bits are 10. */
  predicate InClassB(a: bv32) { a & 0xC000_0000 == 0x8000_0000 }

  /** `IN_CLASSC`: the top three bits are 110. */
  predicate InClassC(a: bv32) { a & 0xE000_0000 == 0xC000_0000 }

  /** The three class tests the source runs one after the other. */
  function ClassMask(a: bv32): bv32 {
    var m: bv32 := 0;
    var m := if InClassA(a) then ClassANet else m;
    var m := if InClassB(a) then ClassBNet else m;
    var m := if InClassC(a) then ClassCNet else m;
    m
  }

  /** `lookup_netmask(addr, &result)`: None for -1 (result untouched), Some(mask) for
      0 with the mask written back in network byte order. */
  function LookupNetmask(addr: bv32): (r: Option<bv32>)
    ensures InClassA(ByteSwap(addr)) ==> r == Some(ByteSwap(ClassANet))
    ensures InClassB(ByteSwap(addr)) ==> r == Some(ByteSwap(ClassBNet))
    ensures InClassC(ByteSwap(addr)) ==> r == Some(ByteSwap(ClassCNet))
    ensures r.None? <==> ByteSwap(addr) >> 29 == 7
  {
    var m := ClassMask(ByteSwap(addr));
    if m == 0 then None else Some(ByteSwap(m))
  }

  /** At most one of the class tests holds, so at most one assignment takes effect. */
  lemma ClassesExclusive(a: bv32)
    ensures !(InClassA(a) && InClassB(a))
    ensures !(InClassA(a) && InClassC(a))
    ensures !(InClassB(a) && InClassC(a))
  {
  }

  /** Read back in host order, a returned mask is one of the three classful masks. */
  lemma {:induction false} MaskInHostOrder(addr: bv32)
    requires LookupNetmask(addr).Some?
    ensures var m := ByteSwap(LookupNetmask(addr).value);
      m == ClassANet || m == ClassBNet || m == ClassCNet
  {
    ByteSwapInvolution(ClassMask(ByteSwap(addr)));
  }
}
