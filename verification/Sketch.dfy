/** The distinct-value sketch of internal/aggregate/sketch.go: an exact list while the
    values are few, HyperLogLog registers past a limit. Whatever is added and merged, in
    whatever order, the sketch is a function of the set of hashes seen. */
module Sketch {
  import opened Ordering
  import opened Sequences

  const PRECISION := 10
  const REGISTERS := 1024
  const SPARSE_LIMIT := 64

  /** A 64-bit hash. */
  newtype Hash = x: int | 0 <= x < 0x1_0000_0000_0000_0000

  function Pow2(n: nat): (p: nat)
    ensures p > 0
  {
    if n == 0 then 1 else 2 * Pow2(n - 1)
  }

  /** The number of leading zeros of the `width` low bits of `x`. */
  function LeadingZeros(x: nat, width: nat): (n: nat)
    ensures n <= width
  {
    if width == 0 || x >= Pow2(width - 1) then 0 else 1 + LeadingZeros(x, width - 1)
  }

  /** The register a hash falls into: its ten high bits. */
  function Bucket(h: Hash): (i: nat)
    ensures i < REGISTERS
  {
    h as int / 0x40_0000_0000_0000
  }

  /** One more than the leading zeros of the other bits, shifted up, with the guard bit set. */
  function Rho(h: Hash): nat {
    LeadingZeros((h as int % 0x40_0000_0000_0000) * 1024 + 512, 64) + 1
  }

  lemma {:induction false} LeadingZerosBound(x: nat, width: nat)
    requires width >= 10 && x >= 512
    ensures LeadingZeros(x, width) <= width - 10
  {
    if x < Pow2(width - 1) {
      assert Pow2(9) == 512;
      LeadingZerosBound(x, width - 1);
    }
  }

  /** The guard bit keeps every value storable in a byte, and never zero. */
  lemma RhoBounds(h: Hash)
    ensures 1 <= Rho(h) <= 55
  {
    LeadingZerosBound((h as int % 0x40_0000_0000_0000) * 1024 + 512, 64);
  }

  lemma {:induction false} LeadingZerosExact(x: nat, width: nat)
    requires 0 < x < Pow2(width)
    ensures var n := LeadingZeros(x, width); n < width && Pow2(width - 1 - n) <= x < Pow2(width - n)
  {
    if x < Pow2(width - 1) {
      LeadingZerosExact(x, width - 1);
    }
  }

  lemma {:induction false} Pow2Ten(n: nat)
    ensures Pow2(n + 10) == 1024 * Pow2(n)
  {
    if n == 0 {
      assert Pow2(5) == 32;
      assert Pow2(10) == 1024;
    } else {
      Pow2Ten(n - 1);
    }
  }

  lemma Pow2Values()
    ensures Pow2(54) == 0x40_0000_0000_0000 && Pow2(64) == 0x1_0000_0000_0000_0000
    ensures Pow2(10) == 1024
  {
    assert Pow2(4) == 16;
    Pow2Ten(4);
    Pow2Ten(14);
    Pow2Ten(24);
    Pow2Ten(34);
    Pow2Ten(44);
    Pow2Ten(54);
    Pow2Ten(0);
  }

  /** The register is the top ten bits; rho is one more than the zeros that lead the 54 bits
      under them, and 55 when they are all zero. */
  lemma HashSplit(h: Hash)
    ensures var low := h as int - Bucket(h) * Pow2(54);
            && 0 <= low < Pow2(54)
            && (if low == 0 then Rho(h) == 55
                else 1 <= Rho(h) <= 54 && Pow2(54 - Rho(h)) <= low < Pow2(55 - Rho(h)))
  {
    Pow2Values();
    var low := h as int % 0x40_0000_0000_0000;
    assert low == h as int - Bucket(h) * Pow2(54);
    RhoBounds(h);
    LeadingZerosExact(low * 1024 + 512, 64);
    if Rho(h) <= 54 {
      Pow2Ten(54 - Rho(h));
      Pow2Ten(55 - Rho(h));
    }
  }

  // ---------------------------------------------------------------- the sketch of a set

  function Max(a: nat, b: nat): nat {
    if a > b then a else b
  }

  /** The value of a register, given all the hashes seen. */
  ghost function Register(s: set<Hash>, i: nat): nat {
    if s == {} then 0
    else
      var h :| h in s;
      Raised(Register(s - {h}, i), h, i)
  }

  /** Register `i` after one more hash. */
  function Raised(reg: nat, h: Hash, i: nat): nat {
    if Bucket(h) == i then Max(reg, Rho(h)) else reg
  }

  /** It is the greatest rho of the hashes of its bucket, and zero when there is none. */
  lemma {:induction false} RegisterIsMax(s: set<Hash>, i: nat)
    ensures forall h | h in s && Bucket(h) == i :: Rho(h) <= Register(s, i)
    ensures Register(s, i) == 0 || exists h :: h in s && Bucket(h) == i && Rho(h) == Register(s, i)
    decreases |s|
  {
    if s != {} {
      var g :| g in s && Register(s, i) == Raised(Register(s - {g}, i), g, i);
      var rest := s - {g};
      RegisterIsMax(rest, i);
      assert Register(s, i) == Raised(Register(s - {g}, i), g, i);
      assert Register(s, i) == Raised(Register(rest, i), g, i);
      forall h | h in s && Bucket(h) == i
        ensures Rho(h) <= Register(s, i)
      {
        if h != g {
          assert h in rest;
        }
      }
      if Register(s, i) != 0 {
        if Bucket(g) == i && Register(s, i) == Rho(g) {
          assert g in s && Bucket(g) == i && Rho(g) == Register(s, i);
        } else {
          var h :| h in rest && Bucket(h) == i && Rho(h) == Register(rest, i);
          assert h in s && Bucket(h) == i && Rho(h) == Register(s, i);
        }
      }
    }
  }

  lemma RegisterOfUnion(s: set<Hash>, t: set<Hash>, i: nat)
    ensures Register(s + t, i) == Max(Register(s, i), Register(t, i))
  {
    RegisterIsMax(s, i);
    RegisterIsMax(t, i);
    RegisterIsMax(s + t, i);
    if Register(s, i) > 0 {
      var h :| h in s && Bucket(h) == i && Rho(h) == Register(s, i);
      assert h in s + t;
    }
    if Register(t, i) > 0 {
      var h :| h in t && Bucket(h) == i && Rho(h) == Register(t, i);
      assert h in s + t;
    }
  }

  lemma RegisterOfOne(h: Hash, i: nat)
    ensures Register({h}, i) == if Bucket(h) == i then Rho(h) else 0
  {
    RegisterIsMax({h}, i);
    RhoBounds(h);
  }

  class Sketch {
    var items: seq<Hash>
    var regs: array?<int>

    ghost var seen: set<Hash>  // every hash ever added or merged in

    /** Sparse: exactly the hashes, none twice, at most the limit. Dense: past the limit,
        each register at the maximum over its bucket. */
    ghost predicate Valid()
      reads this, regs
    {
      if regs == null then Members(items) == seen && Distinct(items) && |seen| <= SPARSE_LIMIT
      else items == [] && regs.Length == REGISTERS && |seen| > SPARSE_LIMIT && Holds(regs, seen)
    }

    static ghost predicate Holds(regs: array<int>, s: set<Hash>)
      reads regs
    {
      forall i | 0 <= i < regs.Length :: regs[i] == Register(s, i)
    }

    constructor ()
      ensures Valid() && seen == {} && regs == null
    {
      items, regs, seen := [], null, {};
    }

    method Add(h: Hash)
      requires Valid()
      modifies this, regs
      ensures Valid() && seen == old(seen) + {h} && (regs == old(regs) || fresh(regs))
    {
      if regs != null {
        AddDense(regs, h, seen);
        Grows(seen, h);
        seen := seen + {h};
        return;
      }
      if h in items {
        assert seen + {h} == seen;
        return;
      }
      DistinctCount(items);
      items, seen := items + [h], seen + {h};
      assert Members(items) == seen;
      DistinctCount(items);
      if |items| > SPARSE_LIMIT {
        Densify();
      }
    }

    static method AddDense(regs: array<int>, h: Hash, ghost s: set<Hash>)
      requires regs.Length == REGISTERS && Holds(regs, s)
      modifies regs
      ensures Holds(regs, s + {h})
    {
      var i, rho := Bucket(h), Rho(h);
      forall j | 0 <= j < REGISTERS
        ensures Register(s + {h}, j) == Max(regs[j], if j == i then rho else 0)
      {
        RegisterOfUnion(s, {h}, j);
        RegisterOfOne(h, j);
      }
      if rho > regs[i] {
        regs[i] := rho;
      }
    }

    /** Registers holding exactly these hashes. */
    static method Dense(list: seq<Hash>) returns (regs: array<int>)
      ensures fresh(regs) && regs.Length == REGISTERS && Holds(regs, Members(list))
    {
      regs := new int[REGISTERS](_ => 0);
      AddList(regs, list, {});
      assert {} + Members(list) == Members(list);
    }

    static method AddList(regs: array<int>, list: seq<Hash>, ghost s: set<Hash>)
      requires regs.Length == REGISTERS && Holds(regs, s)
      modifies regs
      ensures Holds(regs, s + Members(list))
    {
      MembersFrom(list, 0, s);
      for i := 0 to |list|
        invariant Holds(regs, s + Members(list[..i]))
      {
        AddDense(regs, list[i], s + Members(list[..i]));
        MembersFrom(list, i, s);
      }
      TakeAll(list);
    }

    /** Folds another sketch in: the hashes are united, not counted twice. */
    method Merge(o: Sketch)
      requires Valid() && o.Valid() && o != this && (regs != null ==> regs != o.regs)
      modifies this, regs
      ensures Valid() && seen == old(seen) + o.seen && (regs == old(regs) || fresh(regs))
    {
      if o.regs != null {
        if regs == null {
          regs := Dense(items);
          items := [];
        }
        Raise(regs, o.regs, seen, o.seen);
        SubsetCount(o.seen, seen + o.seen);
        seen := seen + o.seen;
        return;
      }
      if regs != null {
        AddList(regs, o.items, seen);
        SubsetCount(seen, seen + o.seen);
        seen := seen + o.seen;
        return;
      }
      AddEach(o.items);
    }

    /** Takes the greater of every two registers. */
    static method Raise(regs: array<int>, other: array<int>, ghost s: set<Hash>, ghost t: set<Hash>)
      requires regs != other && regs.Length == other.Length == REGISTERS
      requires Holds(regs, s) && Holds(other, t)
      modifies regs
      ensures Holds(regs, s + t)
    {
      for i := 0 to REGISTERS
        invariant Holds(other, t)
        invariant forall j | 0 <= j < i :: regs[j] == Register(s + t, j)
        invariant forall j | i <= j < REGISTERS :: regs[j] == Register(s, j)
      {
        RegisterOfUnion(s, t, i);
        if other[i] > regs[i] {
          regs[i] := other[i];
        }
      }
    }

    method AddEach(list: seq<Hash>)
      requires Valid()
      modifies this, regs
      ensures Valid() && seen == old(seen) + Members(list) && (regs == old(regs) || fresh(regs))
    {
      ghost var all := seen;
      MembersFrom(list, 0, seen);
      for i := 0 to |list|
        invariant Valid() && (regs == old(regs) || fresh(regs))
        invariant seen == all + Members(list[..i])
      {
        Add(list[i]);
        MembersFrom(list, i, all);
      }
      TakeAll(list);
    }

    /** The estimate depends on the set seen alone, and is exact while it is sparse;
        `dense` is the floating-point formula over the registers. */
    method Estimate(dense: seq<int> -> nat) returns (n: nat)
      requires Valid()
      ensures n == if |seen| <= SPARSE_LIMIT then |seen| else dense(Registers(seen))
    {
      if regs == null {
        DistinctCount(items);
        return |items|;
      }
      assert regs[..] == Registers(seen);
      return dense(regs[..]);
    }

    method Densify()
      requires regs == null && Members(items) == seen && |seen| > SPARSE_LIMIT
      modifies this
      ensures Valid() && fresh(regs) && seen == old(seen)
    {
      regs := Dense(items);
      items := [];
    }
  }

  lemma MembersFrom(list: seq<Hash>, i: nat, s: set<Hash>)
    requires i <= |list|
    ensures i == 0 ==> s + Members(list[..i]) == s
    ensures i < |list| ==> s + Members(list[..i + 1]) == s + Members(list[..i]) + {list[i]}
  {
    if i < |list| {
      TakeNext(list, i);
    }
  }

  /** All the registers of a set of hashes. */
  ghost function Registers(s: set<Hash>): seq<int> {
    seq(REGISTERS, i requires 0 <= i => Register(s, i))
  }

  lemma Grows(s: set<Hash>, h: Hash)
    ensures |s + {h}| >= |s|
  {
    if h in s {
      assert s + {h} == s;
    }
  }
}
