/** The cursor of internal/tlsfp/cursor.go: reads that check the remainder first, and
    blocks whose contents are read through a cursor of their own. */
module Cursors {
  import opened Wrappers
  import opened Sequences
  import opened Bytes

  /** A read: what was taken off, and what is left. */
  datatype Cut = Cut(head: seq<Byte>, tail: seq<Byte>)

  function Take(b: seq<Byte>, n: nat): (c: Option<Cut>)
    ensures c.Some? <==> n <= |b|
    ensures c.Some? ==> |c.value.head| == n && b == c.value.head + c.value.tail
  {
    if |b| < n then None else Some(Cut(b[..n], b[n..]))
  }

  /** A block whose length is written in its first byte; the length is not part of it. */
  function Block8(b: seq<Byte>): Option<Cut> {
    if |b| < 1 then None else Take(b[1..], b[0] as int)
  }

  /** A block whose length is written in its first two bytes. */
  function Block16(b: seq<Byte>): Option<Cut> {
    if |b| < 2 then None else Take(b[2..], U16(b))
  }

  /** The contents of a block, or nothing when it is cut short. */
  function Inside(block: Option<Cut>): seq<Byte> {
    match block case None => [] case Some(c) => c.head
  }

  function Pairs(b: seq<Byte>): seq<Code>
    requires |b| % 2 == 0
  {
    if b == [] then [] else [U16(b)] + Pairs(b[2..])
  }

  /** The bytes as 16-bit codes; an odd number of bytes gives none at all. */
  function Codes(b: seq<Byte>): seq<Code> {
    if |b| % 2 == 0 then Pairs(b) else []
  }

  /** One code more moves from what is left to what is done. */
  lemma PairsMove(done: seq<Byte>, b: seq<Byte>)
    requires |done| % 2 == 0 && |b| >= 2
    ensures done + b == (done + b[..2]) + b[2..]
    ensures Pairs(done + b[..2]) == Pairs(done) + [U16(b)]
  {
    SplitAt(b, 2);
    Associate(done, b[..2], b[2..]);
    SameCode(b);
    PairsNext(done, b[..2]);
  }

  lemma SameCode(b: seq<Byte>)
    requires |b| >= 2
    ensures U16(b[..2]) == U16(b)
  {
  }

  lemma {:induction false} PairsNext(b: seq<Byte>, code: seq<Byte>)
    requires |b| % 2 == 0 && |code| == 2
    ensures Pairs(b + code) == Pairs(b) + [U16(code)]
  {
    if b == [] {
      assert b + code == code && code[2..] == [];
    } else {
      assert (b + code)[2..] == b[2..] + code;
      PairsNext(b[2..], code);
    }
  }

  class Cursor {
    var b: seq<Byte>
    var failed: bool

    /** What is still to be read, unless a read has failed. */
    ghost function Rest(): Option<seq<Byte>>
      reads this
    {
      if failed then None else Some(b)
    }

    constructor (b: seq<Byte>)
      ensures this.b == b && !failed
    {
      this.b, failed := b, false;
    }

    /** The next n bytes; after a failed read, and in it, nothing. */
    method Bytes(n: nat) returns (out: seq<Byte>)
      modifies this
      ensures old(Rest()).None? ==> Rest().None? && b == old(b) && out == []
      ensures old(Rest()).Some? ==>
                match Take(old(b), n)
                case None => Rest().None? && b == old(b) && out == []
                case Some(c) => Rest() == Some(c.tail) && out == c.head
    {
      if failed {
        return [];
      }
      if |b| < n {
        failed := true;
        return [];
      }
      out, b := b[..n], b[n..];
    }

    method ReadU8() returns (v: nat)
      modifies this
      ensures v < 256
      ensures old(failed) || |old(b)| < 1 ==> failed && b == old(b) && v == 0
      ensures !old(failed) && |old(b)| >= 1 ==> !failed && b == old(b)[1..] && v == old(b)[0] as int
    {
      var read := Bytes(1);
      return if |read| == 0 then 0 else read[0] as int;
    }

    method ReadU16() returns (v: Code)
      modifies this
      ensures old(failed) || |old(b)| < 2 ==> failed && b == old(b) && v == 0
      ensures !old(failed) && |old(b)| >= 2 ==> !failed && b == old(b)[2..] && v == U16(old(b))
    {
      var read := Bytes(2);
      return if |read| == 0 then 0 else U16(read);
    }

    method ReadU24() returns (v: nat)
      modifies this
      ensures old(failed) || |old(b)| < 3 ==> failed && b == old(b) && v == 0
      ensures !old(failed) && |old(b)| >= 3 ==> !failed && b == old(b)[3..] && v == U24(old(b))
    {
      var read := Bytes(3);
      return if |read| == 0 then 0 else U24(read);
    }

    /** Opens a cursor over the contents of a block, so that nothing inside can escape it. */
    method ReadBlock8() returns (inner: Cursor)
      modifies this
      ensures fresh(inner) && !inner.failed
      ensures inner.b == if old(failed) then [] else Inside(Block8(old(b)))
      ensures Rest() == match (if old(failed) then None else Block8(old(b)))
                        case None => None
                        case Some(c) => Some(c.tail)
    {
      var n := ReadU8();
      var contents := Bytes(n);
      inner := new Cursor(contents);
    }

    method ReadBlock16() returns (inner: Cursor)
      modifies this
      ensures fresh(inner) && !inner.failed
      ensures inner.b == if old(failed) then [] else Inside(Block16(old(b)))
      ensures Rest() == match (if old(failed) then None else Block16(old(b)))
                        case None => None
                        case Some(c) => Some(c.tail)
    {
      var n := ReadU16();
      var contents := Bytes(n);
      inner := new Cursor(contents);
    }

    /** Reads the rest as 16-bit codes. */
    method ReadCodes() returns (codes: seq<Code>)
      modifies this
      ensures codes == if old(failed) then [] else Codes(old(b))
      ensures Rest() == if old(failed) || |old(b)| % 2 != 0 then None else Some([])
    {
      if failed {
        return [];
      }
      if |b| % 2 != 0 {
        failed := true;
        return [];
      }
      codes := [];
      ghost var done: seq<Byte> := [];
      while |b| > 0 && !failed
        invariant !failed && |b| % 2 == 0 && |done| % 2 == 0
        invariant old(b) == done + b && codes == Pairs(done)
        decreases |b|
      {
        PairsMove(done, b);
        done := done + b[..2];
        var code := ReadU16();
        codes := codes + [code];
      }
      assert done + b == done;
    }
  }
}
