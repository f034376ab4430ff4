/** The generic four-level page table: the VMSAv8-64 layout with a 4 KiB granule
    and 9 index bits per level, an abstract page-table entry, and the table
    object with `map`, `unmap`, `query` and `update`. */
module PageTable {
  import opened Rvm
  import opened Mm
  import Frame

  type VirtAddr = GuestPhysAddr
  type PhysAddr = HostPhysAddr
  type PhysFrame = Frame.PhysFrame

  const ENTRY_COUNT: Usize := 512

  // ---------------------------------------------------------------------
  // Address decomposition

  /** Index into the level-4 (root) table: bits 39..47 of the address. */
  function P4Index(vaddr: VirtAddr): (i: Usize)
    ensures i < ENTRY_COUNT
  {
    (vaddr >> 39) & (ENTRY_COUNT - 1)
  }

  /** Index into a level-3 table: bits 30..38 of the address. */
  function P3Index(vaddr: VirtAddr): (i: Usize)
    ensures i < ENTRY_COUNT
  {
    (vaddr >> 30) & (ENTRY_COUNT - 1)
  }

  /** Index into a level-2 table: bits 21..29 of the address. */
  function P2Index(vaddr: VirtAddr): (i: Usize)
    ensures i < ENTRY_COUNT
  {
    (vaddr >> 21) & (ENTRY_COUNT - 1)
  }

  /** Index into a level-1 (last-level) table: bits 12..20 of the address. */
  function P1Index(vaddr: VirtAddr): (i: Usize)
    ensures i < ENTRY_COUNT
  {
    (vaddr >> 12) & (ENTRY_COUNT - 1)
  }

  /** Each index is the address's bits of its level moved down: shifted back
      in place it is the address masked to those nine bits. */
  lemma P4IndexBits(vaddr: VirtAddr)
    ensures P4Index(vaddr) << 39 == vaddr & 0xFF80_0000_0000
  {
  }

  lemma P3IndexBits(vaddr: VirtAddr)
    ensures P3Index(vaddr) << 30 == vaddr & 0x7F_C000_0000
  {
  }

  lemma P2IndexBits(vaddr: VirtAddr)
    ensures P2Index(vaddr) << 21 == vaddr & 0x3FE0_0000
  {
  }

  lemma P1IndexBits(vaddr: VirtAddr)
    ensures P1Index(vaddr) << 12 == vaddr & 0x1F_F000
  {
  }

  /** The start of the page holding `addr`: a multiple of the page size, at
      most `addr` and less than a page below it. */
  function AlignDown(addr: Usize): (r: Usize)
    ensures Frame.PageAligned(r)
    ensures r <= addr && addr - r < PAGE_SIZE
  {
    addr & !(PAGE_SIZE - 1)
  }

  /** The position of `addr` inside its page; with the page start it gives
      back `addr`. */
  function PageOffset(addr: Usize): (r: Usize)
    ensures r < PAGE_SIZE
    ensures AlignDown(addr) + r == addr
  {
    addr & (PAGE_SIZE - 1)
  }

  /** Aligning is idempotent, an aligned address has offset 0, and an address
      is aligned exactly when aligning it changes nothing. */
  lemma AlignDownLaws(addr: Usize)
    ensures AlignDown(AlignDown(addr)) == AlignDown(addr)
    ensures PageOffset(AlignDown(addr)) == 0
    ensures Frame.PageAligned(addr) <==> AlignDown(addr) == addr
  {
  }

  /** For an address below 2^48 the four indices and the page offset hold all
      of its bits: put back in place, they rebuild the address. */
  lemma Recompose(vaddr: VirtAddr)
    requires vaddr < 1 << 48
    ensures (P4Index(vaddr) << 39) | (P3Index(vaddr) << 30) | (P2Index(vaddr) << 21)
            | (P1Index(vaddr) << 12) | PageOffset(vaddr) == vaddr
  {
    P4IndexBits(vaddr);
    P3IndexBits(vaddr);
    P2IndexBits(vaddr);
    P1IndexBits(vaddr);
  }

  /** The four indices and the offset occupy disjoint bit ranges, so or-ing them
      together is the same as adding them. */
  lemma RecomposeBySum(vaddr: VirtAddr)
    requires vaddr < 1 << 48
    ensures (P4Index(vaddr) << 39) + (P3Index(vaddr) << 30) + (P2Index(vaddr) << 21)
            + (P1Index(vaddr) << 12) + PageOffset(vaddr) == vaddr
  {
    P4IndexBits(vaddr);
    P3IndexBits(vaddr);
    P2IndexBits(vaddr);
    P1IndexBits(vaddr);
  }

  // ---------------------------------------------------------------------
  // Leaf slots and tables

  /** The last-level entry an address selects: its four table indices. */
  datatype Slot = Slot(p4: int, p3: int, p2: int, p1: int)

  function SlotOf(vaddr: VirtAddr): (s: Slot)
    ensures 0 <= s.p4 < 512 && 0 <= s.p3 < 512 && 0 <= s.p2 < 512 && 0 <= s.p1 < 512
  {
    Slot(Index(P4Index(vaddr)), Index(P3Index(vaddr)), Index(P2Index(vaddr)), Index(P1Index(vaddr)))
  }

  /** A table index as a number; two indices are the same number exactly
      when they are the same word. */
  function Index(i: Usize): (n: int)
    requires i < ENTRY_COUNT
    ensures 0 <= n < 512
  {
    (i as bv9) as int
  }

  lemma SameIndex(i: Usize, j: Usize)
    requires i < ENTRY_COUNT && j < ENTRY_COUNT
    ensures Index(i) == Index(j) <==> i == j
  {
  }

  /** Two addresses select the same last-level entry exactly when they agree on
      bits 12..47; bits 48..63 and the page offset play no part. */
  lemma SameSlotIff(a: VirtAddr, b: VirtAddr)
    ensures SlotOf(a) == SlotOf(b) <==> a & 0xFFFF_FFFF_F000 == b & 0xFFFF_FFFF_F000
  {
    SameIndex(P4Index(a), P4Index(b));
    SameIndex(P3Index(a), P3Index(b));
    SameIndex(P2Index(a), P2Index(b));
    SameIndex(P1Index(a), P1Index(b));
    if SlotOf(a) == SlotOf(b) {
      IndicesDetermineBits(a, b);
    }
    if a & 0xFFFF_FFFF_F000 == b & 0xFFFF_FFFF_F000 {
      IndicesFromBits(a, b);
    }
  }

  lemma IndicesDetermineBits(a: VirtAddr, b: VirtAddr)
    requires P4Index(a) == P4Index(b) && P3Index(a) == P3Index(b)
    requires P2Index(a) == P2Index(b) && P1Index(a) == P1Index(b)
    ensures a & 0xFFFF_FFFF_F000 == b & 0xFFFF_FFFF_F000
  {
    P4IndexBits(a);
    P3IndexBits(a);
    P2IndexBits(a);
    P1IndexBits(a);
    P4IndexBits(b);
    P3IndexBits(b);
    P2IndexBits(b);
    P1IndexBits(b);
  }

  lemma IndicesFromBits(a: VirtAddr, b: VirtAddr)
    requires a & 0xFFFF_FFFF_F000 == b & 0xFFFF_FFFF_F000
    ensures P4Index(a) == P4Index(b) && P3Index(a) == P3Index(b)
    ensures P2Index(a) == P2Index(b) && P1Index(a) == P1Index(b)
  {
    SameP4Index(a, b);
    SameP3Index(a, b);
    SameP2Index(a, b);
    SameP1Index(a, b);
  }

  lemma SameP4Index(a: VirtAddr, b: VirtAddr)
    requires a & 0xFFFF_FFFF_F000 == b & 0xFFFF_FFFF_F000
    ensures P4Index(a) == P4Index(b)
  {
    P4IndexBits(a);
    P4IndexBits(b);
  }

  lemma SameP3Index(a: VirtAddr, b: VirtAddr)
    requires a & 0xFFFF_FFFF_F000 == b & 0xFFFF_FFFF_F000
    ensures P3Index(a) == P3Index(b)
  {
    P3IndexBits(a);
    P3IndexBits(b);
  }

  lemma SameP2Index(a: VirtAddr, b: VirtAddr)
    requires a & 0xFFFF_FFFF_F000 == b & 0xFFFF_FFFF_F000
    ensures P2Index(a) == P2Index(b)
  {
    P2IndexBits(a);
    P2IndexBits(b);
  }

  lemma SameP1Index(a: VirtAddr, b: VirtAddr)
    requires a & 0xFFFF_FFFF_F000 == b & 0xFFFF_FFFF_F000
    ensures P1Index(a) == P1Index(b)
  {
    P1IndexBits(a);
    P1IndexBits(b);
  }

  /** Adding an in-page offset to a page-aligned address keeps the slot, and
      the offset is what `PageOffset` reads back. */
  lemma OffsetWithinPage(vaddr: VirtAddr, off: Usize)
    requires Frame.PageAligned(vaddr) && off < PAGE_SIZE
    ensures SlotOf(vaddr + off) == SlotOf(vaddr)
    ensures PageOffset(vaddr + off) == off
    ensures AlignDown(vaddr + off) == vaddr
  {
    OffsetKeepsPageBits(vaddr, off);
    IndicesFromBits(vaddr + off, vaddr);
    OffsetReadBack(vaddr, off);
    PageStartReadBack(vaddr, off);
  }

  lemma OffsetKeepsPageBits(vaddr: VirtAddr, off: Usize)
    requires Frame.PageAligned(vaddr) && off < PAGE_SIZE
    ensures (vaddr + off) & 0xFFFF_FFFF_F000 == vaddr & 0xFFFF_FFFF_F000
  {
  }

  lemma OffsetReadBack(vaddr: VirtAddr, off: Usize)
    requires Frame.PageAligned(vaddr) && off < PAGE_SIZE
    ensures PageOffset(vaddr + off) == off
  {
  }

  lemma PageStartReadBack(vaddr: VirtAddr, off: Usize)
    requires Frame.PageAligned(vaddr) && off < PAGE_SIZE
    ensures AlignDown(vaddr + off) == vaddr
  {
  }

  // ---------------------------------------------------------------------
  // Page-table entries

  /** An abstract page-table entry. `Unused` is the all-zero entry; `Page` is
      an entry built by `new_page`. The encoding itself belongs to the target
      hardware and is not modelled. */
  datatype Pte = Unused | Page(addr: PhysAddr, attrs: MemFlags, huge: bool) {
    /** `paddr`: the zero entry reads as address 0. */
    function Paddr(): PhysAddr {
      if Page? then addr else 0
    }

    /** `flags`: the zero entry reads as no flags. */
    function Flags(): MemFlags {
      if Page? then attrs else EMPTY
    }

    /** `is_unused`: the entry is zero. */
    predicate IsUnused() {
      Unused?
    }

    /** `is_huge`: the entry maps a huge frame; the zero entry reads as not
        huge. */
    predicate IsHuge() {
      Page? && huge
    }
  }

  /** `new_page`: an entry mapping `paddr` with `flags` and the given huge bit;
      it is never the zero entry. */
  function NewPage(paddr: PhysAddr, flags: MemFlags, isHuge: bool): (e: Pte)
    ensures !e.IsUnused()
    ensures e.Paddr() == paddr && e.Flags() == flags && e.IsHuge() == isHuge
  {
    Page(paddr, flags, isHuge)
  }

  /** `clear`: the entry becomes zero, whatever it held. */
  function Clear(e: Pte): (c: Pte)
    ensures c.IsUnused() && !c.IsHuge()
    ensures c.Paddr() == 0 && c.Flags() == EMPTY
  {
    Unused
  }

  // ---------------------------------------------------------------------
  // Tables

  /** A table of the radix tree, named by the indices on the path from the
      root to it: the root (level 4) table, a level-3 table under root entry
      `p4`, and so on down to the level-1 tables that hold the leaf slots. */
  datatype TableId =
    | Root
    | P3Table(p4: int)
    | P2Table(p4: int, p3: int)
    | P1Table(p4: int, p3: int, p2: int)
  {
    predicate InRange() {
      match this
      case Root => true
      case P3Table(a) => 0 <= a < 512
      case P2Table(a, b) => 0 <= a < 512 && 0 <= b < 512
      case P1Table(a, b, c) => 0 <= a < 512 && 0 <= b < 512 && 0 <= c < 512
    }

    /** The table whose entry points to this one. */
    function Parent(): TableId
      requires !Root?
    {
      match this
      case P3Table(_) => Root
      case P2Table(a, _) => P3Table(a)
      case P1Table(a, b, _) => P2Table(a, b)
    }
  }

  /** The level-1 table holding slot `s`. */
  function LeafTable(s: Slot): TableId {
    P1Table(s.p4, s.p3, s.p2)
  }

  /** `t` is one of the three tables below the root on the walk to slot `s`. */
  predicate OnPath(t: TableId, s: Slot) {
    t == P3Table(s.p4) || t == P2Table(s.p4, s.p3) || t == LeafTable(s)
  }

  function Min(a: nat, b: nat): nat {
    if a <= b then a else b
  }

  /** `t1` keeps every table of `t0`, in the same frame, and the only tables it
      adds are on the walk to slot `s`, each in a frame numbered from `lo` up
      to (not including) `hi`. */
  ghost predicate GrownAlong(t0: map<TableId, PhysFrame>, t1: map<TableId, PhysFrame>, s: Slot, lo: nat, hi: nat) {
    && (forall t :: t in t0 ==> t in t1 && t1[t] == t0[t])
    && (forall t :: t in t1 && t !in t0 ==> OnPath(t, s) && lo <= t1[t] < hi)
  }

  lemma GrownAlongTrans(t0: map<TableId, PhysFrame>, t1: map<TableId, PhysFrame>, t2: map<TableId, PhysFrame>,
                        s: Slot, a: nat, b: nat, c: nat)
    requires GrownAlong(t0, t1, s, a, b) && GrownAlong(t1, t2, s, b, c) && a <= b <= c
    ensures GrownAlong(t0, t2, s, a, c)
  {
  }

  /** The tables form a tree: the root exists, and every other table has its
      parent table. */
  ghost predicate TreeShaped(tables: map<TableId, PhysFrame>) {
    && Root in tables
    && (forall t :: t in tables ==> t.InRange())
    && (forall a, b :: P2Table(a, b) in tables ==> P3Table(a) in tables)
    && (forall a, b, c :: P1Table(a, b, c) in tables ==> P2Table(a, b) in tables)
  }

  /** The frames in `s` are in allocation order, so no frame occurs twice.
      (The quantifier fires only on `FrameAt` terms, which only the proofs
      that extend the list mention.) */
  ghost predicate Ascending(s: seq<PhysFrame>) {
    forall i, j {:trigger FrameAt(s, i), FrameAt(s, j)} ::
      0 <= i < j < |s| ==> FrameAt(s, i) < FrameAt(s, j)
  }

  ghost function FrameAt(s: seq<PhysFrame>, i: int): PhysFrame
    requires 0 <= i < |s|
  {
    s[i]
  }

  /** No two tables share a frame. (As with `Ascending`, the quantifier fires
      only on `FrameOf` terms, which only the proof that adds a table
      mentions.) */
  ghost predicate Exclusive(tables: map<TableId, PhysFrame>) {
    forall t, u {:trigger FrameOf(tables, t), FrameOf(tables, u)} ::
      t in tables && u in tables && FrameOf(tables, t) == FrameOf(tables, u) ==> t == u
  }

  ghost function FrameOf(tables: map<TableId, PhysFrame>, t: TableId): PhysFrame
    requires t in tables
  {
    tables[t]
  }

  /** `frames` lists the frames of the tables, root first: each frame once,
      no two tables in the same frame, and as many frames as there are
      tables, so that every owned frame holds exactly one table. */
  ghost predicate OwnsExactly(frames: seq<PhysFrame>, tables: map<TableId, PhysFrame>) {
    && |frames| == |tables| && Root in tables && frames[0] == tables[Root]
    && (forall t :: t in tables ==> tables[t] in frames)
    && Ascending(frames)
    && Exclusive(tables)
  }

  /** Under the invariant, distinct tables live in distinct frames. */
  lemma TablesOwnDistinctFrames(frames: seq<PhysFrame>, tables: map<TableId, PhysFrame>,
                                leaves: map<Slot, Pte>, t: TableId, u: TableId)
    requires Inv(frames, tables, leaves) && t in tables && u in tables && t != u
    ensures tables[t] != tables[u]
  {
    assert FrameOf(tables, t) == tables[t] && FrameOf(tables, u) == tables[u];
  }

  /** Written leaf entries lie in existing level-1 tables, map page-aligned
      addresses and are never huge. */
  ghost predicate LeavesPlaced(leaves: map<Slot, Pte>, tables: map<TableId, PhysFrame>) {
    && (forall s :: s in leaves ==> 0 <= s.p1 < 512 && LeafTable(s) in tables)
    && (forall s :: s in leaves ==> !leaves[s].IsHuge() && Frame.PageAligned(leaves[s].Paddr()))
  }

  /** The invariant of a four-level page table, over its owned frames, its
      tables and its written leaf entries. */
  ghost predicate Inv(frames: seq<PhysFrame>, tables: map<TableId, PhysFrame>, leaves: map<Slot, Pte>) {
    TreeShaped(tables) && OwnsExactly(frames, tables) && LeavesPlaced(leaves, tables)
  }

  /** Adding a missing table under an existing parent, in a fresh frame that
      the table then owns, keeps the invariant. */
  lemma AddTable(frames: seq<PhysFrame>, tables: map<TableId, PhysFrame>,
                 leaves: map<Slot, Pte>, t: TableId, f: PhysFrame)
    requires Inv(frames, tables, leaves)
    requires t != Root && t.InRange() && t.Parent() in tables && t !in tables
    requires forall i :: 0 <= i < |frames| ==> frames[i] < f
    ensures Inv(frames + [f], tables[t := f], leaves)
  {
    var tables', frames' := tables[t := f], frames + [f];
    forall i, j | 0 <= i < j < |frames'|
      ensures FrameAt(frames', i) < FrameAt(frames', j)
    {
      if j < |frames| {
        assert FrameAt(frames, i) < FrameAt(frames, j);
      }
    }
    forall u | u in tables
      ensures FrameOf(tables, u) < f
    {
      assert tables[u] in frames;
    }
    forall a, b | a in tables' && b in tables' && FrameOf(tables', a) == FrameOf(tables', b)
      ensures a == b
    {
      if a != t && b != t {
        assert FrameOf(tables, a) == FrameOf(tables, b);
      }
    }
    assert OwnsExactly(frames', tables');
  }

  /** Writing a non-huge entry with a page-aligned address into a slot of an
      existing level-1 table keeps the invariant. */
  lemma WriteLeaf(frames: seq<PhysFrame>, tables: map<TableId, PhysFrame>,
                  leaves: map<Slot, Pte>, s: Slot, e: Pte)
    requires Inv(frames, tables, leaves)
    requires 0 <= s.p1 < 512 && LeafTable(s) in tables
    requires !e.IsHuge() && Frame.PageAligned(e.Paddr())
    ensures Inv(frames, tables, leaves[s := e])
  {
  }

  /** The level-1 table of a slot exists only if the two tables above it do. */
  lemma PathClosed(tables: map<TableId, PhysFrame>, s: Slot)
    requires TreeShaped(tables)
    ensures LeafTable(s) in tables ==> P2Table(s.p4, s.p3) in tables
    ensures P2Table(s.p4, s.p3) in tables ==> P3Table(s.p4) in tables
  {
    assert LeafTable(s).Parent() == P2Table(s.p4, s.p3);
    assert P2Table(s.p4, s.p3).Parent() == P3Table(s.p4);
  }

  /** The entry in slot `s`: the zero entry where nothing was written, and
      nothing at all when the slot's level-1 table does not exist. */
  function EntryIn(tables: map<TableId, PhysFrame>, leaves: map<Slot, Pte>, s: Slot): Option<Pte> {
    if LeafTable(s) !in tables then None
    else if s in leaves then Some(leaves[s])
    else Some(Unused)
  }

  /** The mapping held in slot `s`: its entry, when that is not unused. */
  function MappingIn(leaves: map<Slot, Pte>, s: Slot): Option<Pte> {
    if s in leaves && !leaves[s].IsUnused() then Some(leaves[s]) else None
  }

  /** How many of the three tables below the root on the walk to slot `s`
      are missing (those missing are always the lowest ones). */
  function MissingIn(tables: map<TableId, PhysFrame>, s: Slot): nat {
    if P3Table(s.p4) !in tables then 3
    else if P2Table(s.p4, s.p3) !in tables then 2
    else if LeafTable(s) !in tables then 1
    else 0
  }

  /** What the walk of `get_entry_mut_or_create` works on: the tables, the
      frames owned, the allocator's next free frame, and whether every table
      asked for so far exists. */
  datatype Walk = Walk(tables: map<TableId, PhysFrame>, frames: seq<PhysFrame>, next: nat, ok: bool)

  /** One step of the walk: make table `t` exist. A missing table is put in
      frame `next`, which the table then owns, when that frame is below
      `limit`; otherwise the walk fails. A failed walk does nothing more. */
  function Step(w: Walk, t: TableId, limit: nat): Walk
    requires limit <= Frame.FRAME_LIMIT
  {
    if !w.ok || t in w.tables then w
    else if w.next < limit then
      Walk(w.tables[t := w.next as PhysFrame], w.frames + [w.next as PhysFrame], w.next + 1, true)
    else w.(ok := false)
  }

  /** The whole walk to slot `s`: the level-3, level-2 and level-1 tables on
      the way, top down. */
  function CreatePath(w: Walk, s: Slot, limit: nat): Walk
    requires limit <= Frame.FRAME_LIMIT
  {
    Step(Step(Step(w, P3Table(s.p4), limit), P2Table(s.p4, s.p3), limit), LeafTable(s), limit)
  }

  /** The walk succeeds exactly when the allocator has a frame for every
      missing table; it takes one frame per missing table until it runs out,
      and it adds only tables on the way to `s`, each in one of the frames it
      took. On success the level-1 table of `s` exists. */
  lemma {:induction false} CreatePathOutcome(w: Walk, s: Slot, limit: nat)
    requires w.ok && TreeShaped(w.tables) && w.next <= limit <= Frame.FRAME_LIMIT
    ensures CreatePath(w, s, limit).ok <==> MissingIn(w.tables, s) <= limit - w.next
    ensures CreatePath(w, s, limit).next == w.next + Min(MissingIn(w.tables, s), limit - w.next)
    ensures CreatePath(w, s, limit).ok ==> LeafTable(s) in CreatePath(w, s, limit).tables
    ensures GrownAlong(w.tables, CreatePath(w, s, limit).tables, s, w.next, CreatePath(w, s, limit).next)
  {
    PathClosed(w.tables, s);
    var w1 := Step(w, P3Table(s.p4), limit);
    var w2 := Step(w1, P2Table(s.p4, s.p3), limit);
    var w3 := Step(w2, LeafTable(s), limit);
    assert GrownAlong(w.tables, w1.tables, s, w.next, w1.next);
    assert GrownAlong(w1.tables, w2.tables, s, w1.next, w2.next);
    assert GrownAlong(w2.tables, w3.tables, s, w2.next, w3.next);
    GrownAlongTrans(w.tables, w1.tables, w2.tables, s, w.next, w1.next, w2.next);
    GrownAlongTrans(w.tables, w2.tables, w3.tables, s, w.next, w2.next, w3.next);
  }

  /** When the level-1 table of `s` already exists, the walk changes nothing. */
  lemma CreatePathExisting(w: Walk, s: Slot, limit: nat)
    requires w.ok && TreeShaped(w.tables) && LeafTable(s) in w.tables && limit <= Frame.FRAME_LIMIT
    ensures CreatePath(w, s, limit) == w
  {
    PathClosed(w.tables, s);
  }

  /** Writing entry `e` into slot `s` of an existing level-1 table changes the
      entry and the mapping of `s` and of no other slot. */
  lemma WriteOnlyTouchesSlot(tables: map<TableId, PhysFrame>, leaves: map<Slot, Pte>, s: Slot, e: Pte)
    requires LeafTable(s) in tables
    ensures EntryIn(tables, leaves[s := e], s) == Some(e)
    ensures MappingIn(leaves[s := e], s) == if e.IsUnused() then None else Some(e)
    ensures forall s' :: s' != s ==> EntryIn(tables, leaves[s := e], s') == EntryIn(tables, leaves, s')
    ensures forall s' :: s' != s ==> MappingIn(leaves[s := e], s') == MappingIn(leaves, s')
  {
  }

  /** A four-level page table. The entries of the tables live in physical
      frames; the model keeps them as two maps: `tables` says which tables
      exist and in which frame (the contents of the intermediate entries), and
      `leaves` holds the last-level entries that were ever written (any other
      slot of an existing level-1 table is the zero entry). The root address
      is not kept apart from the frames: it is the start of the first frame
      owned, which is the root table's. */
  class Level4PageTable {
    /** The frames the table owns, root first, in allocation order. */
    var intrmTables: seq<PhysFrame>
    var tables: map<TableId, PhysFrame>
    var leaves: map<Slot, Pte>

    ghost predicate Valid()
      reads this
    {
      Inv(intrmTables, tables, leaves)
    }

    /** The allocator hands out only frames above those this table owns. */
    ghost predicate FreshFor(alloc: Frame.Allocator)
      reads this, alloc
    {
      forall i :: 0 <= i < |intrmTables| ==> intrmTables[i] < alloc.next
    }

    function Entry(s: Slot): Option<Pte>
      reads this
    {
      EntryIn(tables, leaves, s)
    }

    function Mapping(s: Slot): Option<Pte>
      reads this
    {
      MappingIn(leaves, s)
    }

    /** A table whose only frame is `root`, with every entry zero. */
    constructor (root: PhysFrame)
      ensures Valid()
      ensures intrmTables == [root]
      ensures tables == map[Root := root] && leaves == map[]
    {
      intrmTables := [root];
      tables := map[Root := root];
      leaves := map[];
    }

    /** `new`: allocate a zeroed root frame and own it; fails when the
        allocator has no frame. */
    static method New(alloc: Frame.Allocator) returns (r: RvmResult<Level4PageTable>)
      requires alloc.Valid()
      modifies alloc
      ensures alloc.Valid()
      ensures alloc.limit == old(alloc.limit)
      ensures old(alloc.next) == old(alloc.limit) ==> r == Err(NoMemory) && alloc.next == old(alloc.next)
      ensures old(alloc.next) < old(alloc.limit) ==>
                && r.Ok? && fresh(r.value) && r.value.Valid() && r.value.FreshFor(alloc)
                && r.value.RootPaddr() == Frame.StartPaddr(old(alloc.next))
                && r.value.intrmTables == [old(alloc.next)]
                && r.value.tables == map[Root := old(alloc.next)] && r.value.leaves == map[]
                && alloc.next == old(alloc.next) + 1
    {
      var frame := alloc.AllocZero();
      if frame.Err? {
        return Err(frame.error);
      }
      var t := new Level4PageTable(frame.value);
      r := Ok(t);
    }

    /** `root_paddr`: the frame of the root table, the first frame owned. */
    function RootPaddr(): (p: PhysAddr)
      reads this
      requires Valid()
      ensures p == Frame.StartPaddr(intrmTables[0]) && p == Frame.StartPaddr(tables[Root])
      ensures Frame.PageAligned(p)
    {
      Frame.StartPaddr(intrmTables[0])
    }

    /** `get_entry_mut`: walk from the root to the last-level slot for `vaddr`;
        fails with `InvalidParam` when a table on the way is missing. */
    function GetEntryMut(vaddr: VirtAddr): (r: RvmResult<Slot>)
      reads this
      requires Valid()
      ensures r.Ok? <==> Entry(SlotOf(vaddr)).Some?
      ensures r.Ok? ==> r.value == SlotOf(vaddr)
      ensures r.Err? ==> r.error == InvalidParam
    {
      var s := SlotOf(vaddr);
      PathClosed(tables, s);
      if P3Table(s.p4) !in tables then Err(InvalidParam)
      else if P2Table(s.p4, s.p3) !in tables then Err(InvalidParam)
      else if LeafTable(s) !in tables then Err(InvalidParam)
      else Ok(s)
    }

    /** Make table `t` exist below its parent: if it is missing, take a frame
        from the allocator, own it and point the parent entry at it. */
    method CreateTableIfMissing(t: TableId, alloc: Frame.Allocator) returns (ok: bool)
      requires Valid() && alloc.Valid() && FreshFor(alloc)
      requires t != Root && t.InRange() && t.Parent() in tables
      modifies this, alloc
      ensures Valid() && alloc.Valid() && FreshFor(alloc)
      ensures tables[Root] == old(tables[Root]) && leaves == old(leaves) && alloc.limit == old(alloc.limit)
      ensures Walk(tables, intrmTables, alloc.next, ok)
              == Step(Walk(old(tables), old(intrmTables), old(alloc.next), true), t, alloc.limit)
    {
      if t in tables {
        return true;
      }
      var frame := alloc.AllocZero();
      if frame.Err? {
        return false;
      }
      var f := frame.value;
      AddTable(intrmTables, tables, leaves, t, f);
      tables := tables[t := f];
      intrmTables := intrmTables + [f];
      ok := true;
    }

    /** `get_entry_mut_or_create`: walk to the last-level slot for `vaddr`,
        creating the tables missing on the way, top down, each in a frame
        taken from the allocator and owned from then on. Fails with the
        allocator's error once it runs out of frames; tables created before
        that stay in place and owned. What the walk does is `CreatePath`. */
    method GetEntryMutOrCreate(vaddr: VirtAddr, alloc: Frame.Allocator) returns (r: RvmResult<Slot>)
      requires Valid() && alloc.Valid() && FreshFor(alloc)
      modifies this, alloc
      ensures Valid() && alloc.Valid() && FreshFor(alloc)
      ensures tables[Root] == old(tables[Root]) && leaves == old(leaves) && alloc.limit == old(alloc.limit)
      ensures Walk(tables, intrmTables, alloc.next, r.Ok?)
              == CreatePath(Walk(old(tables), old(intrmTables), old(alloc.next), true), SlotOf(vaddr), alloc.limit)
      ensures r.Ok? ==> r.value == SlotOf(vaddr)
      ensures r.Err? ==> r.error == NoMemory
    {
      var s := SlotOf(vaddr);
      var ok := CreateTableIfMissing(P3Table(s.p4), alloc);
      if !ok {
        return Err(NoMemory);
      }
      ok := CreateTableIfMissing(P2Table(s.p4, s.p3), alloc);
      if !ok {
        return Err(NoMemory);
      }
      ok := CreateTableIfMissing(LeafTable(s), alloc);
      if !ok {
        return Err(NoMemory);
      }
      return Ok(s);
    }

    /** `*entry = e`: store `e` in slot `s` of an existing level-1 table,
        through the reference the walk returned. Only that slot changes. */
    method SetEntry(s: Slot, e: Pte)
      requires Valid() && 0 <= s.p1 < 512 && LeafTable(s) in tables
      requires !e.IsHuge() && Frame.PageAligned(e.Paddr())
      modifies this
      ensures Valid()
      ensures intrmTables == old(intrmTables) && tables == old(tables) && leaves == old(leaves)[s := e]
    {
      WriteLeaf(intrmTables, tables, leaves, s, e);
      leaves := leaves[s := e];
    }

    /** `map`: install a 4 KiB mapping of `vaddr` to the page holding `paddr`.
        Fails with `InvalidParam`, changing nothing, when the slot already
        holds a mapping; fails with `NoMemory` when a table on the way cannot
        be allocated (the tables created before that stay). */
    method Map(vaddr: VirtAddr, paddr: PhysAddr, flags: MemFlags, alloc: Frame.Allocator)
      returns (r: RvmResult<()>)
      requires Valid() && alloc.Valid() && FreshFor(alloc)
      modifies this, alloc
      ensures Valid() && alloc.Valid() && FreshFor(alloc)
      ensures tables[Root] == old(tables[Root]) && alloc.limit == old(alloc.limit)
      ensures MappingIn(old(leaves), SlotOf(vaddr)).Some? ==>
                && r == Err(InvalidParam) && leaves == old(leaves)
                && tables == old(tables) && intrmTables == old(intrmTables) && alloc.next == old(alloc.next)
      ensures MappingIn(old(leaves), SlotOf(vaddr)).None? ==>
                var w := CreatePath(Walk(old(tables), old(intrmTables), old(alloc.next), true), SlotOf(vaddr), alloc.limit);
                && tables == w.tables && intrmTables == w.frames && alloc.next == w.next
                && (w.ok ==> r == Ok(()) && leaves == old(leaves)[SlotOf(vaddr) := NewPage(AlignDown(paddr), flags, false)])
                && (!w.ok ==> r == Err(NoMemory) && leaves == old(leaves))
    {
      ghost var s := SlotOf(vaddr);
      if MappingIn(leaves, s).Some? {
        CreatePathExisting(Walk(tables, intrmTables, alloc.next, true), s, alloc.limit);
      }
      var got := GetEntryMutOrCreate(vaddr, alloc);
      if got.Err? {
        return Err(got.error);
      }
      var slot := got.value;
      var entry := if slot in leaves then leaves[slot] else Unused;
      if !entry.IsUnused() {
        return Err(InvalidParam);
      }
      var e := NewPage(AlignDown(paddr), flags, false);
      SetEntry(slot, e);
      return Ok(());
    }

    /** `unmap`: remove the mapping of `vaddr` and return the address it
        mapped. Fails with `InvalidParam`, changing nothing, when there is
        no mapping. Tables are never freed here. */
    method Unmap(vaddr: VirtAddr) returns (r: RvmResult<PhysAddr>)
      requires Valid()
      modifies this
      ensures Valid()
      ensures intrmTables == old(intrmTables) && tables == old(tables)
      ensures r.Ok? <==> MappingIn(old(leaves), SlotOf(vaddr)).Some?
      ensures r.Err? ==> r.error == InvalidParam && leaves == old(leaves)
      ensures r.Ok? ==> && r.value == MappingIn(old(leaves), SlotOf(vaddr)).value.Paddr()
                        && leaves == old(leaves)[SlotOf(vaddr) := Unused]
    {
      var got := GetEntryMut(vaddr);
      if got.Err? {
        return Err(got.error);
      }
      var slot := got.value;
      var entry := if slot in leaves then leaves[slot] else Unused;
      if entry.IsUnused() {
        return Err(InvalidParam);
      }
      var pa := entry.Paddr();
      SetEntry(slot, Clear(entry));
      return Ok(pa);
    }

    /** `query`: the physical address `vaddr` translates to and the flags of
        its page. Fails with `InvalidParam` when `vaddr` is not mapped. The
        result lies in the mapped page at the same offset as `vaddr`. */
    function Query(vaddr: VirtAddr): (r: RvmResult<(PhysAddr, MemFlags)>)
      reads this
      requires Valid()
      ensures r.Ok? <==> Mapping(SlotOf(vaddr)).Some?
      ensures r.Err? ==> r.error == InvalidParam
      ensures r.Ok? ==> && AlignDown(r.value.0) == Mapping(SlotOf(vaddr)).value.Paddr()
                        && PageOffset(r.value.0) == PageOffset(vaddr)
                        && r.value.1 == Mapping(SlotOf(vaddr)).value.Flags()
    {
      match GetEntryMut(vaddr)
      case Err(e) => Err(e)
      case Ok(slot) =>
        var entry := if slot in leaves then leaves[slot] else Unused;
        if entry.IsUnused() then
          Err(InvalidParam)
        else
          var pa, off := entry.Paddr(), PageOffset(vaddr);
          assert Frame.PageAligned(pa);
          OffsetWithinPage(pa, off);
          Ok((pa + off, entry.Flags()))
    }

    /** Once page `vaddr` maps `paddr` with `flags`, as a successful `map`
        leaves it, `query` of any address in that page gives the address at
        the same offset in the page of `paddr`, and `flags`. */
    lemma QueryAfterMap(vaddr: VirtAddr, paddr: PhysAddr, flags: MemFlags, off: Usize)
      requires Valid() && Frame.PageAligned(vaddr) && off < PAGE_SIZE
      requires Mapping(SlotOf(vaddr)) == Some(NewPage(AlignDown(paddr), flags, false))
      ensures Query(vaddr + off) == Ok((AlignDown(paddr) + off, flags))
    {
      OffsetWithinPage(vaddr, off);
      OffsetWithinPage(AlignDown(paddr), off);
    }

    /** `update`: rewrite the entry of `vaddr`, keeping its address when no new
        one is given (a new one is aligned down to its page), keeping its flags
        when none are given, and always keeping its huge bit. It fails with
        `InvalidParam` only when the slot's table is missing: an unused slot
        is rewritten like any other. */
    method Update(vaddr: VirtAddr, paddr: Option<PhysAddr>, flags: Option<MemFlags>)
      returns (r: RvmResult<()>)
      requires Valid()
      modifies this
      ensures Valid()
      ensures intrmTables == old(intrmTables) && tables == old(tables)
      ensures r.Ok? <==> EntryIn(old(tables), old(leaves), SlotOf(vaddr)).Some?
      ensures r.Err? ==> r.error == InvalidParam && leaves == old(leaves)
      ensures r.Ok? ==>
                var was := EntryIn(old(tables), old(leaves), SlotOf(vaddr)).value;
                leaves == old(leaves)[SlotOf(vaddr) := NewPage(
                  AlignDown(paddr.GetOr(was.Paddr())), flags.GetOr(was.Flags()), was.IsHuge())]
    {
      var got := GetEntryMut(vaddr);
      if got.Err? {
        return Err(got.error);
      }
      var slot := got.value;
      var entry := if slot in leaves then leaves[slot] else Unused;
      assert Entry(slot) == Some(entry);
      var pa := AlignDown(paddr.GetOr(entry.Paddr()));
      var fl := flags.GetOr(entry.Flags());
      var e := NewPage(pa, fl, entry.IsHuge());
      SetEntry(slot, e);
      return Ok(());
    }
  }
}
