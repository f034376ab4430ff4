/** Memory-management constants and value types of the AArch64 port:
    the page size, the address types and the `MemFlags` bit set. */
module Mm {

  /** `usize` on AArch64 is a 64-bit word; shifts and masks act on all 64 bits. */
  type Usize = bv64

  type GuestVirtAddr = Usize
  type GuestPhysAddr = Usize
  type HostVirtAddr = Usize
  type HostPhysAddr = Usize

  const PAGE_SIZE: Usize := 0x1000

  /** The page size is 2^12, so `PAGE_SIZE - 1` is the mask of the low twelve
      bits: it keeps exactly the bits below bit 12 and drops every bit above. */
  lemma PageSizeIsLowMask(a: Usize)
    ensures PAGE_SIZE == 1 << 12
    ensures PAGE_SIZE - 1 == 0xFFF
    ensures a & (PAGE_SIZE - 1) < PAGE_SIZE
    ensures (a & (PAGE_SIZE - 1)) | (a & !(PAGE_SIZE - 1)) == a
    ensures (a & (PAGE_SIZE - 1)) & (a & !(PAGE_SIZE - 1)) == 0
  {
  }

  /** A set of memory attributes, stored as the bits of a `u64` as the
      `bitflags` crate does. */
  datatype MemFlags = MemFlags(bits: bv64) {

    /** `contains`: every bit of `other` is set in this value. */
    predicate Contains(other: MemFlags) {
      bits & other.bits == other.bits
    }

    /** No bit outside the five named flags is set. */
    predicate IsKnown() {
      bits & !0x1F == 0
    }

    /** `|`: the union of two flag sets. */
    function Union(other: MemFlags): (r: MemFlags)
      ensures r.Contains(this) && r.Contains(other)
      ensures forall k :: 0 <= k < |NAMED| ==>
                (r.Contains(NAMED[k]) <==> Contains(NAMED[k]) || other.Contains(NAMED[k]))
      ensures IsKnown() && other.IsKnown() ==> r.IsKnown()
    {
      var r := MemFlags(bits | other.bits);
      UnionKeepsBits(this, other);
      UnionKeepsKnown(this, other);
      assert forall k :: 0 <= k < |NAMED| ==>
               (r.Contains(NAMED[k]) <==> Contains(NAMED[k]) || other.Contains(NAMED[k])) by {
        forall k | 0 <= k < |NAMED| {
          NamedBitOfUnion(this, other, k);
        }
      }
      r
    }
  }

  /** A named flag is in the union of two sets exactly when it is in one of them. */
  lemma NamedBitOfUnion(a: MemFlags, b: MemFlags, k: int)
    requires 0 <= k < |NAMED|
    ensures MemFlags(a.bits | b.bits).Contains(NAMED[k]) <==> a.Contains(NAMED[k]) || b.Contains(NAMED[k])
  {
    var g := NAMED[k].bits;
    assert g == 1 || g == 2 || g == 4 || g == 8 || g == 16;
    SingleBitOfUnion(a.bits, b.bits, g);
  }

  /** `a | b` keeps every bit of `a` and of `b`. */
  lemma UnionKeepsBits(a: MemFlags, b: MemFlags)
    ensures MemFlags(a.bits | b.bits).Contains(a) && MemFlags(a.bits | b.bits).Contains(b)
  {
  }

  /** `a | b` has no bit above the five named ones that neither `a` nor `b` has. */
  lemma UnionKeepsKnown(a: MemFlags, b: MemFlags)
    ensures a.IsKnown() && b.IsKnown() ==> MemFlags(a.bits | b.bits).IsKnown()
  {
  }

  /** A single bit is set in `a | b` exactly when it is set in `a` or in `b`. */
  lemma SingleBitOfUnion(a: bv64, b: bv64, g: bv64)
    requires g == 1 || g == 2 || g == 4 || g == 8 || g == 16
    ensures (a | b) & g == g <==> a & g == g || b & g == g
  {
  }

  const READ: MemFlags := MemFlags(1 << 0)
  const WRITE: MemFlags := MemFlags(1 << 1)
  const EXECUTE: MemFlags := MemFlags(1 << 2)
  const DEVICE: MemFlags := MemFlags(1 << 3)
  const USER: MemFlags := MemFlags(1 << 4)

  /** The named flags, in declaration order. */
  const NAMED: seq<MemFlags> := [READ, WRITE, EXECUTE, DEVICE, USER]

  /** `MemFlags::all()` and `MemFlags::empty()`. */
  const ALL: MemFlags := MemFlags(0x1F)
  const EMPTY: MemFlags := MemFlags(0)

  /** The named flags are the single bits 0 to 4, in order, and no two of them
      share a bit; together they make up `ALL`. */
  lemma NamedFlagsAreDistinctBits()
    ensures |NAMED| == 5
    ensures forall k :: 0 <= k < |NAMED| ==> NAMED[k].bits == 1 << k
    ensures forall j, k :: 0 <= j < k < |NAMED| ==> NAMED[j].bits & NAMED[k].bits == 0
    ensures forall k :: 0 <= k < |NAMED| ==> ALL.Contains(NAMED[k]) && NAMED[k].IsKnown()
    ensures forall k :: 0 <= k < |NAMED| ==> !EMPTY.Contains(NAMED[k])
    ensures EMPTY.IsKnown()
  {
    forall j, k | 0 <= j < k < |NAMED|
      ensures NAMED[j].bits & NAMED[k].bits == 0
    {
      assert NAMED[j].bits == 1 << j && NAMED[k].bits == 1 << k;
    }
  }

  /** The flag set written `a | b | ...` for the flags listed in `fs`: it
      contains every listed flag. */
  function UnionOf(fs: seq<MemFlags>): (r: MemFlags)
    ensures forall i :: 0 <= i < |fs| ==> r.Contains(fs[i])
    decreases |fs|
  {
    if fs == [] then EMPTY else fs[0].Union(UnionOf(fs[1..]))
  }

  /** A named flag is in `UnionOf(fs)` exactly when some listed flag
      contains it. */
  lemma {:induction false} UnionOfNamed(fs: seq<MemFlags>, k: int)
    requires 0 <= k < |NAMED|
    ensures UnionOf(fs).Contains(NAMED[k]) <==> exists i :: 0 <= i < |fs| && fs[i].Contains(NAMED[k])
    decreases |fs|
  {
    if fs != [] {
      var rest := fs[1..];
      UnionOfNamed(rest, k);
      NamedBitOfUnion(fs[0], UnionOf(rest), k);
      if UnionOf(rest).Contains(NAMED[k]) {
        var i :| 0 <= i < |rest| && rest[i].Contains(NAMED[k]);
        assert fs[i + 1] == rest[i];
      }
      if exists i :: 0 <= i < |fs| && fs[i].Contains(NAMED[k]) {
        var i :| 0 <= i < |fs| && fs[i].Contains(NAMED[k]);
        if i > 0 {
          assert rest[i - 1] == fs[i];
        }
      }
    }
  }

  /** The union of known flag sets has no unknown bit. */
  lemma {:induction false} UnionOfKnown(fs: seq<MemFlags>)
    requires forall i :: 0 <= i < |fs| ==> fs[i].IsKnown()
    ensures UnionOf(fs).IsKnown()
    decreases |fs|
  {
    if fs != [] {
      var rest := fs[1..];
      forall i | 0 <= i < |rest|
        ensures rest[i].IsKnown()
      {
        assert rest[i] == fs[i + 1];
      }
      UnionOfKnown(rest);
      UnionKeepsKnown(fs[0], UnionOf(rest));
    }
  }
}
