/** Addresses and networks as Go's net/netip has them: 32 or 128 bits, most
    significant first, and a zone that only the long ones may carry. */
module Net {

  datatype RawAddr = RawAddr(bits: seq<bool>, zone: string)

  type Addr = a: RawAddr | |a.bits| == 128 || (|a.bits| == 32 && a.zone == "")
    witness RawAddr(Zeros(32), "")

  datatype RawPrefix = RawPrefix(addr: Addr, length: nat)

  type Prefix = p: RawPrefix | p.length <= |p.addr.bits| && p.addr.zone == ""
    witness RawPrefix(RawAddr(Zeros(32), ""), 0)

  function Zeros(n: nat): (z: seq<bool>)
    ensures |z| == n && forall i | 0 <= i < n :: !z[i]
  {
    seq(n, _ => false)
  }

  predicate Is4(a: Addr) {
    |a.bits| == 32
  }

  /** The first 96 bits of ::ffff:0:0/96, the IPv4-mapped addresses. */
  function MappedHead(): (h: seq<bool>)
    ensures |h| == 96
  {
    Zeros(80) + seq(16, _ => true)
  }

  function Unmap(a: Addr): Addr {
    if |a.bits| == 128 && a.bits[..96] == MappedHead() then RawAddr(a.bits[96..], "") else a
  }

  function Masked(p: Prefix): (m: Prefix)
    ensures m.length == p.length && |m.addr.bits| == |p.addr.bits|
  {
    RawPrefix(RawAddr(p.addr.bits[..p.length] + Zeros(|p.addr.bits| - p.length), ""), p.length)
  }

  /** The network of `length` bits around an address; the zone is dropped. */
  function NetworkOf(a: Addr, length: nat): (p: Prefix)
    requires length <= |a.bits|
    ensures p.length == length && |p.addr.bits| == |a.bits|
  {
    Masked(RawPrefix(RawAddr(a.bits, ""), length))
  }

  /** An address with a zone is in no network. */
  predicate Contains(p: Prefix, a: Addr) {
    a.zone == "" && Covers(p, a)
  }

  predicate Covers(p: Prefix, a: Addr) {
    |a.bits| == |p.addr.bits| && a.bits[..p.length] == p.addr.bits[..p.length]
  }

  /** Masking a network first changes nothing about which addresses it holds. */
  lemma MaskingKeeps(p: Prefix, a: Addr)
    ensures Covers(Masked(p), a) == Covers(p, a)
    ensures Contains(Masked(p), a) == Contains(p, a)
  {
  }

  /** A masked network covers an address exactly when it is the address's own
      network of that length. */
  lemma CoversIsNetwork(p: Prefix, a: Addr)
    requires Masked(p) == p && |a.bits| == |p.addr.bits|
    ensures Covers(p, a) <==> NetworkOf(a, p.length) == p
  {
    var own := NetworkOf(a, p.length);
    if Covers(p, a) {
      assert own.addr.bits == Masked(p).addr.bits;
    }
  }
}
