# AArch64 page table and exception dispatch, modelled in Dafny

This project models the memory-management and exception core of the AArch64
port of a small Rust hypervisor:

- `mm.dfy` (module `Mm`): the page size, the four address types and the
  `MemFlags` bit set. Every address type is `usize`, which is `Usize = bv64`
  here, so shifts and masks act on 64-bit words as on the target.
- `rvm.dfy` (module `Rvm`): the crate's `RvmResult` with the two error kinds the
  page table reports, and `Option` with `unwrap_or_else`.
- `frame.dfy` (module `Frame`): physical frames and their start addresses. The
  frame allocator is external to the core. It appears here as a class that
  hands out zeroed frames in increasing order from a fixed range and fails with
  `NoMemory` once the range is used up.
- `page_table.dfy` (module `PageTable`): the index functions, `align_down` and
  `page_offset`, an abstract page-table entry, and `Level4PageTable`.
  `Level4PageTable` is a class with `new`, `root_paddr`, `map`, `unmap`, `query`
  and `update`. The tree of tables is kept as two maps:
  - `tables` says which tables exist and in which frame;
  - `leaves` holds the last-level entries written so far.

  The table also keeps `intrmTables`, the list of frames it owns, root first.
  The invariant `Valid` says four things:
  - the tables form a tree;
  - each table has its own owned frame, and no frame is owned twice;
  - every written leaf lies in an existing level-1 table;
  - no leaf is huge, and every leaf maps a page-aligned address.

  The walk that creates missing tables is `GetEntryMutOrCreate`. Its effect is
  given by the value-level function `CreatePath`, and `CreatePathOutcome` states
  what that walk does.
- `exception.dfy` (module `Exception`): the `ExceptionType` codes, the trap
  frame, the dispatch of `exception_handler` on the key `(esr_el1 >> 26) as u8`,
  and the four placeholder handlers. A `panic!` is the outcome `Fatal`.

## Model

| member | source | states |
|---|---|---|
| Mm.PageSizeIsLowMask | src/arch/aarch64/mm/mod.rs:7 | `PAGE_SIZE` is 2^12, so `PAGE_SIZE - 1` is the mask of the low twelve bits. It and its complement split every word into two disjoint parts that make up the whole word. |
| Mm.MemFlags.Union | src/arch/aarch64/mm/mod.rs:18-27 | The union of `a` and `b` contains both. A named flag is in it iff it is in `a` or in `b`. Known sets stay known. |
| Mm.UnionOf | src/arch/aarch64/mm/mod.rs:18-27 | The union of a list of flag sets contains every listed set. |
| Mm.UnionOfNamed | src/arch/aarch64/mm/mod.rs:18-27 | A named flag is in the union of a list iff some set in the list contains it. |
| Mm.UnionOfKnown | src/arch/aarch64/mm/mod.rs:18-27 | The union of sets made of named flags has no other bit. |
| Mm.NamedFlagsAreDistinctBits | src/arch/aarch64/mm/mod.rs:21-25 | `READ`..`USER` are the single bits 0..4, pairwise disjoint and all in `all()`. `empty()` has none of them. |
| Rvm.Option.GetOr | src/arch/aarch64/mm/page_table.rs:135-136 | `unwrap_or_else` gives the held value, or the default when there is none. |
| Frame.StartPaddr | src/arch/aarch64/mm/page_table.rs:71 | A frame's start address is page-aligned. |
| Frame.Allocator.AllocZero | src/arch/aarch64/mm/page_table.rs:68 | Gives the next free frame, or fails with `NoMemory` and changes nothing when none is left. |
| PageTable.P4Index | src/arch/aarch64/mm/page_table.rs:13-15 | The level-4 index is below 512. |
| PageTable.P3Index | src/arch/aarch64/mm/page_table.rs:17-19 | The level-3 index is below 512. |
| PageTable.P2Index | src/arch/aarch64/mm/page_table.rs:21-23 | The level-2 index is below 512. |
| PageTable.P1Index | src/arch/aarch64/mm/page_table.rs:25-27 | The level-1 index is below 512. |
| PageTable.P4IndexBits | src/arch/aarch64/mm/page_table.rs:13-15 | The level-4 index, shifted back by 39, is the address masked to bits 39..47. |
| PageTable.P3IndexBits | src/arch/aarch64/mm/page_table.rs:17-19 | The level-3 index, shifted back by 30, is the address masked to bits 30..38. |
| PageTable.P2IndexBits | src/arch/aarch64/mm/page_table.rs:21-23 | The level-2 index, shifted back by 21, is the address masked to bits 21..29. |
| PageTable.P1IndexBits | src/arch/aarch64/mm/page_table.rs:25-27 | The level-1 index, shifted back by 12, is the address masked to bits 12..20. |
| PageTable.AlignDown | src/arch/aarch64/mm/page_table.rs:29-31 | The result is page-aligned, at most `addr`, and less than a page below it. |
| PageTable.PageOffset | src/arch/aarch64/mm/page_table.rs:33-35 | The offset is below `PAGE_SIZE`, and page start plus offset gives back the address. |
| PageTable.AlignDownLaws | src/arch/aarch64/mm/page_table.rs:29-35 | Aligning is idempotent. An aligned address has offset 0. An address is aligned iff aligning leaves it unchanged. |
| PageTable.Recompose | src/arch/aarch64/mm/page_table.rs:13-35 | Below 2^48, the four indices shifted back into place, or-ed with the page offset, give the address. |
| PageTable.RecomposeBySum | src/arch/aarch64/mm/page_table.rs:13-35 | The same recomposition, written as a sum. |
| PageTable.SlotOf | src/arch/aarch64/mm/page_table.rs:13-27 | The leaf slot an address selects has four indices in 0..511. |
| PageTable.SameSlotIff | src/arch/aarch64/mm/page_table.rs:13-27 | Two addresses select the same slot iff they agree on bits 12..47. |
| PageTable.OffsetWithinPage | src/arch/aarch64/mm/page_table.rs:29-35 | An aligned address plus an in-page offset has the same slot, reads back that offset, and aligns back down to the address. |
| PageTable.NewPage | src/arch/aarch64/mm/page_table.rs:38-39 | `new_page` gives an entry that is not unused and that reads back the given address, flags and huge bit. |
| PageTable.Clear | src/arch/aarch64/mm/page_table.rs:54-55 | `clear` leaves the zero entry: unused (reading as not huge, address 0 and no flags, a choice of this model). |
| PageTable.AddTable | src/arch/aarch64/mm/page_table.rs:61 | Adding a missing table under an existing parent, in a fresh frame it then owns, keeps the invariant, including that no two tables share a frame. |
| PageTable.WriteLeaf | src/arch/aarch64/mm/page_table.rs:92 | Writing a non-huge, aligned entry into an existing level-1 table keeps the invariant. |
| PageTable.TablesOwnDistinctFrames | src/arch/aarch64/mm/page_table.rs:61 | Under the invariant, two distinct tables never live in the same frame: each owned frame is referenced by one table only. |
| PageTable.PathClosed | src/arch/aarch64/mm/page_table.rs:59-63 | In a tree of tables, a slot's level-1 table exists only if the two tables above it exist. |
| PageTable.GrownAlongTrans | src/arch/aarch64/mm/page_table.rs:85 | Two successive walks to the same slot, each adding only tables on that path in frames from its own range, together add only tables on the path, in frames from the combined range. |
| PageTable.CreatePathOutcome | src/arch/aarch64/mm/page_table.rs:85 | The creating walk succeeds iff the allocator has a frame for every missing table. It takes one frame per missing table, up to the frames left. It keeps every existing table, adds only tables on the path, each in a frame it took. On success the slot's level-1 table exists. |
| PageTable.CreatePathExisting | src/arch/aarch64/mm/page_table.rs:85 | When the slot's level-1 table already exists, the creating walk changes nothing and allocates nothing. |
| PageTable.WriteOnlyTouchesSlot | src/arch/aarch64/mm/page_table.rs:92 | Writing slot `s` sets its entry and mapping; every other slot's entry and mapping stay as they were. |
| PageTable.Level4PageTable.constructor | src/arch/aarch64/mm/page_table.rs:70-74 | The new table owns only the root frame, has only the root table, and has every entry zero. |
| PageTable.Level4PageTable.New | src/arch/aarch64/mm/page_table.rs:67-75 | Fails with `NoMemory`, allocating nothing, when no frame is free. Otherwise it takes one frame, and the new table is valid, owns only that frame as its root, has no mapping, and its root address is that frame's start. |
| PageTable.Level4PageTable.RootPaddr | src/arch/aarch64/mm/page_table.rs:78-80 | The root address is the start of the root table's frame and is page-aligned. |
| PageTable.Level4PageTable.GetEntryMut | src/arch/aarch64/mm/page_table.rs:101 | Finds `vaddr`'s slot iff its level-1 table exists. Otherwise it fails with `InvalidParam`. |
| PageTable.Level4PageTable.CreateTableIfMissing | src/arch/aarch64/mm/page_table.rs:85 | One step of the creating walk, as the value-level `Step` states, keeping the invariant. |
| PageTable.Level4PageTable.GetEntryMutOrCreate | src/arch/aarch64/mm/page_table.rs:85 | Does exactly what `CreatePath` states, keeps the invariant and leaves every leaf entry alone. It returns `vaddr`'s slot on success and fails with `NoMemory` otherwise. |
| PageTable.Level4PageTable.SetEntry | src/arch/aarch64/mm/page_table.rs:92 | `*entry = e` changes slot `s` and nothing else, and keeps the invariant. |
| PageTable.Level4PageTable.Map | src/arch/aarch64/mm/page_table.rs:84-97 | If the slot already holds a mapping: `InvalidParam`, and nothing changes. Otherwise the tables grow as `CreatePath` states. On success the slot holds `new_page(align_down(paddr), flags, false)` and no other leaf changes. If the walk runs out of frames: `NoMemory`, no leaf changes, and the tables created so far stay. |
| PageTable.Level4PageTable.Unmap | src/arch/aarch64/mm/page_table.rs:100-111 | Succeeds iff the slot holds a mapping. It returns the mapped address and clears that slot only. Otherwise: `InvalidParam`, nothing changes. No table is freed. |
| PageTable.Level4PageTable.Query | src/arch/aarch64/mm/page_table.rs:115-125 | Succeeds iff the slot holds a mapping; otherwise `InvalidParam`. The result lies in the mapped page at `vaddr`'s offset, with the mapping's flags. |
| PageTable.Level4PageTable.QueryAfterMap | src/arch/aarch64/mm/page_table.rs:92 | After `map(v, p, f)` on an aligned `v`, `query(v + off)` gives `align_down(p) + off` and `f`, for every in-page `off`. |
| PageTable.Level4PageTable.Update | src/arch/aarch64/mm/page_table.rs:128-139 | Fails with `InvalidParam`, changing nothing, iff the slot's level-1 table is missing. Otherwise it writes `new_page(align_down(new or old paddr), new or old flags, old is_huge)` into that slot only, whether or not the slot was in use. |
| Exception.KindCode | src/arch/aarch64/exception.rs:10-15 | Every category's `ExceptionType` code is at most `SError` (3). |
| Exception.KindCodeInjective | src/arch/aarch64/exception.rs:10-15 | Distinct categories have distinct codes. |
| Exception.ExceptionKey | src/arch/aarch64/exception.rs:31 | The key `(esr >> 26) as u8`, moved back into place, is the syndrome masked to bits 26..33. |
| Exception.SameKeyIff | src/arch/aarch64/exception.rs:31 | Two syndromes have the same key iff they agree on bits 26..33. |
| Exception.HandleSyncException | src/arch/aarch64/exception.rs:44-46 | The handler leaves the frame unchanged. |
| Exception.HandleIrq | src/arch/aarch64/exception.rs:48-50 | The handler leaves the frame unchanged. |
| Exception.HandleFiq | src/arch/aarch64/exception.rs:52-54 | The handler leaves the frame unchanged. |
| Exception.HandleSError | src/arch/aarch64/exception.rs:56-58 | The handler leaves the frame unchanged. |
| Exception.ExceptionHandler | src/arch/aarch64/exception.rs:29-42 | The exception is handled iff its key is one of the four codes, and then by the category with that code, frame unchanged. Otherwise it is fatal, reporting the syndrome. |
| Exception.DispatchByKey | src/arch/aarch64/exception.rs:32-36 | For every category `k`: handled as `k` iff the key is `k`'s code. |
| Exception.HighKeyBitsAreFatal | src/arch/aarch64/exception.rs:31-39 | A syndrome with bit 32 or 33 set is fatal, whatever its bits 26..31 say. |
| Exception.OutcomeDependsOnSyndromeOnly | src/arch/aarch64/exception.rs:29-42 | Frames whose syndromes agree on bits 26..33 get the same outcome category. |

## Left out

- `context.rs` is not part of this model beyond the `GeneralRegisters` record that the trap frame holds.
- The exception entry assembly is not modelled. This covers the `global_asm!` vector table, `common_exception_entry`, and the register save and restore macros.
- The trace and error logging in `exception_handler` and the `debug!` in `new` are not modelled. So is the `info!` trace `map` prints for `vaddr == 0x8000`.
- `dump` prints the table through `walk` and changes nothing, so neither is modelled. `table_of`, which gives the table stored in the frame at a physical address, is not modelled as code: the `tables` map, from each table to its frame, stands in for it.
- The bit encoding of entries is not modelled, nor is `new_table` or `is_present`. The entry is abstract, with the properties the trait's doc comments give it, plus one choice of its own: the zero entry reads as not huge, with address 0 and no flags. The invariant's "no leaf is huge" rests on that choice, as does the requirement `!e.IsHuge()` of `SetEntry`.
- PageTable.Level4PageTable.Update: on an unused slot of an existing level-1 table, `update` with no new address or flags writes `new_page(0, empty, false)`, because the zero entry reads as address 0, no flags and not huge. What `paddr()`, `flags()` and `is_huge()` return for a zero entry depends on the hardware encoding, which is not part of this model. Under another encoding the address, the flags or the huge bit written there would differ, and a huge last-level entry would then break the invariant's "no leaf is huge".
- Intermediate-level entries are not stored as entries. The existence of a table in `tables` stands for the parent entry that points to it.
- Huge pages at intermediate levels are not modelled. The walk functions that would meet them are not part of this model, and nothing in the core creates them.
- `get_entry_mut` and `get_entry_mut_or_create` are not part of this model as code. They are specified by what `map`, `unmap`, `query` and `update` need from them:
  - `get_entry_mut` finds the existing leaf slot or fails with `InvalidParam`;
  - `get_entry_mut_or_create` creates the missing tables top down, with the allocator's error once frames run out.
- Frame.Allocator.AllocZero: the real allocator is external to the core. Here it hands out frames in increasing order from one range. The table's only reliance on that order is that each new frame is not one it already owns.
- Freeing the owned frames when the table is dropped (`Drop` of `PhysFrame`) is not modelled.
- PageTable.Level4PageTable.RootPaddr: the root address is derived from the first owned frame rather than stored in its own field. `new` sets the field to exactly that value, and no operation changes it afterwards.
- Exception.ExceptionHandler: `panic!` is the outcome `Fatal` carrying the syndrome, not an unwinding. The handlers' frame is an immutable reference, so a handled exception returns the frame unchanged.
- Exception.ExceptionKey: the key keeps bits 26..33 of the syndrome, as the `as u8` cast does. It is not the six-bit exception class alone.
- PageTable.Level4PageTable.Query: `paddr + off` cannot wrap, because every mapped address is page-aligned and the offset is below a page.
