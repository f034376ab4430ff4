/** The physical frames the page table draws on (`PhysFrame`, `PhysFrame::alloc_zero`).
    The allocator itself is external to the page-table engine; here it is a
    range of zeroed frames handed out in increasing order, which fails once the
    range is exhausted. A frame is named by its frame number. */
module Frame {
  import opened Rvm
  import opened Mm

  /** A physical frame, named by its number: the 4 KiB frame that starts at
      physical address `number * PAGE_SIZE`. Frame numbers have 52 bits, so
      that every start address fits a 64-bit word. */
  type PhysFrame = n: nat | n < FRAME_LIMIT

  /** `PhysFrame::start_paddr`. */
  function StartPaddr(f: PhysFrame): (p: HostPhysAddr)
    ensures PageAligned(p)
  {
    FrameBaseIsAligned(f as bv64);
    (f as bv64) << 12
  }

  lemma FrameBaseIsAligned(n: bv64)
    ensures (n << 12) & (PAGE_SIZE - 1) == 0
  {
  }

  /** `a` is the start of a 4 KiB page. */
  predicate PageAligned(a: HostPhysAddr) {
    a & (PAGE_SIZE - 1) == 0
  }

  /** One past the largest frame number. */
  const FRAME_LIMIT: nat := 0x10_0000_0000_0000

  /** The frame allocator, as a range of free frames handed out in increasing
      order: `next` is the next frame to hand out, `limit` one past the last. */
  class Allocator {
    var next: nat
    var limit: nat

    ghost predicate Valid()
      reads this
    {
      next <= limit <= FRAME_LIMIT
    }

    constructor (first: PhysFrame, count: nat)
      requires first + count <= FRAME_LIMIT
      ensures Valid() && next == first && limit == first + count
    {
      next := first;
      limit := first + count;
    }

    /** `PhysFrame::alloc_zero`: hand out the next free frame, or fail with
        `NoMemory` when none is left. */
    method AllocZero() returns (r: RvmResult<PhysFrame>)
      requires Valid()
      modifies this
      ensures Valid() && limit == old(limit)
      ensures old(next) == old(limit) ==> r == Err(NoMemory) && next == old(next)
      ensures old(next) < old(limit) ==> r == Ok(old(next)) && next == old(next) + 1
    {
      if next == limit {
        return Err(NoMemory);
      }
      r := Ok(next);
      next := next + 1;
    }
  }
}
