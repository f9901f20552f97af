/** The two-level page walk with in-memory Accessed/Dirty updates
    (crates/minemu-core/src/mmu.rs, crates/minemu-platform/src/mmu.rs). */
module Mmu {
  import opened Platform
  import opened Bytes
  import opened Memory

  datatype FaultCause = Translation | ReadProtection | WriteProtection | ExecuteProtection | DeviceAccess

  /** A fault with the metadata that `FaultStatus` packs into DFSR. */
  datatype MmuFault = MmuFault(address: u32, cause: FaultCause, userMode: bool, access: Access)

  datatype Cp15Operation =
    | SetTtbr0(address: u32)
    | SetMmuEnabled(on: bool)
    | InvalidateAll
    | SetVectorBase(base: u32)
    | ReadFaultStatus
    | ReadFaultAddress

  /** One access request presented to the walker. */
  datatype Request = Request(address: u32, access: Access, userMode: bool)

  /** A page-table entry split at its MMU-managed bits: the five permission and valid
      bits, Accessed (bit 5), Dirty (bit 6), five software bits and the page number. */
  datatype Pte = Pte(flags: int, accessed: bool, dirty: bool, software: int, page: int) {
    predicate WellFormed() {
      0 <= flags < 32 && 0 <= software < 32 && 0 <= page < 0x10_0000
    }
    predicate IsValid() { flags % 2 == 1 }
    predicate Writable() { flags / 2 % 2 == 1 }
    predicate User() { flags / 4 % 2 == 1 }
    predicate Executable() { flags / 8 % 2 == 1 }
    predicate Readable() { flags / 16 % 2 == 1 }

    /** `raw & PTE_PAGE_MASK`. */
    function PageBase(): u32
      requires WellFormed()
    {
      4096 * page
    }

    /** `record_successful_access`. */
    function Recorded(access: Access): Pte {
      this.(accessed := true, dirty := dirty || access.Write?)
    }
  }

  function Bit(b: bool): int { if b then 1 else 0 }

  function Pack(p: Pte): u32
    requires p.WellFormed()
  {
    p.flags + 32 * (Bit(p.accessed) + 2 * (Bit(p.dirty) + 2 * (p.software + 32 * p.page)))
  }

  function Unpack(raw: u32): (p: Pte)
    ensures p.WellFormed()
  {
    var high := raw / 32 / 2 / 2;
    Pte(raw % 32, raw / 32 % 2 == 1, raw / 32 / 2 % 2 == 1, high % 32, high / 32)
  }

  lemma SplitAt(low: int, base: int, high: int)
    requires base in {2, 32} && 0 <= low < base
    ensures (low + base * high) % base == low && (low + base * high) / base == high
  {}

  lemma PackUnpack(p: Pte, raw: u32)
    requires p.WellFormed()
    ensures Unpack(Pack(p)) == p && Pack(Unpack(raw)) == raw
  {
    var high := p.software + 32 * p.page;
    SplitAt(p.flags, 32, Bit(p.accessed) + 2 * (Bit(p.dirty) + 2 * high));
    SplitAt(Bit(p.accessed), 2, Bit(p.dirty) + 2 * high);
    SplitAt(Bit(p.dirty), 2, high);
    SplitAt(p.software, 32, p.page);
  }

  predicate PageAligned(address: u32) { address % 4096 == 0 }

  /** `validate_page_table_page`: an aligned page inside RAM. */
  predicate IsTablePage(address: u32) {
    PageAligned(address) && InRam(address, PAGE_SIZE)
  }

  /** `is_mmu_target_page`: an aligned page inside one implemented region. */
  predicate IsTargetPage(address: u32) {
    && PageAligned(address)
    && var region := RegionOf(address);
       region.Some? && region.value.Extent().ContainsRange(Range(address, PAGE_SIZE))
  }

  /** `Cp15Operation::set_ttbr0`: only a RAM page can become the directory. */
  function DecodeSetTtbr0(value: u32): Option<Cp15Operation> {
    if IsTablePage(value) then Some(SetTtbr0(value)) else None
  }

  /** `PageDirectoryEntry::new` and `table_address`: only the valid bit and the page
      may be set, and the table must be a RAM page. */
  function TableAddress(raw: u32): (r: Option<u32>)
    ensures r.Some? ==> IsTablePage(r.value)
  {
    var p := Unpack(raw);
    if p.flags > 1 || p.accessed || p.dirty || p.software != 0 then None
    else if !p.IsValid() then None
    else if IsTablePage(p.PageBase()) then Some(p.PageBase())
    else None
  }

  function ProtectionFault(access: Access): FaultCause {
    match access
    case Fetch => ExecuteProtection
    case Read => ReadProtection
    case Write => WriteProtection
  }

  /** `Permissions::permits`. */
  predicate Permits(entry: Pte, access: Access, userMode: bool) {
    && (userMode ==> entry.User())
    && match access
       case Fetch => entry.Executable()
       case Read => entry.Readable()
       case Write => entry.Writable()
  }

  /** What a page-table entry alone decides about an access: its target page or a fault. */
  function Authorize(entry: Pte, access: Access, userMode: bool): (r: Result<u32, FaultCause>)
    requires entry.WellFormed()
    ensures r.Ok? ==> r.value == entry.PageBase()
  {
    if !entry.IsValid() then Err(Translation)
    else if !Permits(entry, access, userMode) then Err(ProtectionFault(access))
    else
      var region := RegionOf(entry.PageBase());
      if entry.User() && region.Some? && region.value.IsDevice() then Err(ProtectionFault(access))
      else if !IsTargetPage(entry.PageBase()) then Err(Translation)
      else if access.Write? && region.Some? && (region.value.BootRom? || region.value.SystemRom?) then Err(WriteProtection)
      else Ok(entry.PageBase())
  }

  /** `(address >> 22) & 0x3ff` and `(address >> 12) & 0x3ff`. */
  function DirectoryIndex(address: u32): (i: int)
    ensures 0 <= i < 1024
  {
    address / 0x40_0000 % 1024
  }

  function TableIndex(address: u32): (i: int)
    ensures 0 <= i < 1024
  {
    address / 4096 % 1024
  }

  /** The address of word `i` in an aligned page. */
  function WordIn(page: u32, i: int): (a: u32)
    requires PageAligned(page) && 0 <= i < 1024
    ensures a % 4 == 0 && (IsTablePage(page) ==> InRam(a, 4))
  {
    page + i * 4
  }

  /** Where the walk from directory `root` finds the page-table entry for an address. */
  function EntryAddress(m: Mem, root: u32, address: u32): (r: Option<u32>)
    requires m.Valid() && PageAligned(root)
    ensures r.Some? ==> r.value % 4 == 0 && InRam(r.value, 4)
  {
    var directory := ReadU32(m, WordIn(root, DirectoryIndex(address)));
    if directory.Err? then None
    else
      var table := TableAddress(directory.value);
      if table.None? then None else Some(WordIn(table.value, TableIndex(address)))
  }

  /** `target | (address & 0xfff)`. */
  function InPage(page: u32, address: u32): u32
    requires PageAligned(page)
  {
    page + address % 4096
  }

  /** `record_successful_access` on the raw word. */
  function Recorded(entry: u32, access: Access): u32 { Pack(Unpack(entry).Recorded(access)) }

  /** The outcome of one walk: the physical address, or the fault cause. */
  function Resolve(m: Mem, root: u32, q: Request): Result<u32, FaultCause>
    requires m.Valid() && PageAligned(root)
  {
    var slot := EntryAddress(m, root, q.address);
    if slot.None? then Err(Translation)
    else
      var entry := ReadU32(m, slot.value);
      if entry.Err? then Err(Translation)
      else
        var page := Authorize(Unpack(entry.value), q.access, q.userMode);
        if page.Err? then Err(page.error) else Ok(InPage(page.value, q.address))
  }

  /** Memory after one walk: a successful one records the access in its entry. */
  function AfterWalk(m: Mem, root: u32, q: Request): (r: Mem)
    requires m.Valid() && PageAligned(root)
    ensures r.Valid()
  {
    if Resolve(m, root, q).Err? then m
    else
      var slot := EntryAddress(m, root, q.address).value;
      var entry := ReadU32(m, slot).value;
      var updated := Recorded(entry, q.access);
      if updated == entry then m
      else
        ReadAfterWrite(m, slot, updated, slot);
        WriteRange(m, slot, Le32(updated)).value
  }

  /** The MMU registers and the walker that updates memory in place. */
  class Walker {
    var enabled: bool
    var ttbr0: u32
    var vectorBase: u32
    var lastFault: Option<MmuFault>

    /** Every CP15 write keeps the directory base page aligned. */
    ghost predicate Valid()
      reads this
    {
      PageAligned(ttbr0)
    }

    constructor ()
      ensures Valid() && !enabled && ttbr0 == 0 && vectorBase == 0 && lastFault == None
    {
      enabled, ttbr0, vectorBase, lastFault := false, 0, 0, None;
    }

    /** `apply_cp15` on an operation that passed decoding. */
    method ApplyCp15(operation: Cp15Operation)
      requires Valid() && (operation.SetTtbr0? ==> DecodeSetTtbr0(operation.address) == Some(operation))
      modifies this
      ensures Valid() && lastFault == old(lastFault)
      ensures ttbr0 == if operation.SetTtbr0? then operation.address else old(ttbr0)
      ensures enabled == if operation.SetMmuEnabled? then operation.on else old(enabled)
      ensures vectorBase == if operation.SetVectorBase? then operation.base else old(vectorBase)
    {
      match operation
      case SetTtbr0(address) => ttbr0 := address;
      case SetMmuEnabled(on) => enabled := on;
      case SetVectorBase(base) => vectorBase := base;
      case _ =>
    }

    method Fault(q: Request, cause: FaultCause) returns (fault: MmuFault)
      modifies this`lastFault
      ensures fault == MmuFault(q.address, cause, q.userMode, q.access) && lastFault == Some(fault)
    {
      fault := MmuFault(q.address, cause, q.userMode, q.access);
      lastFault := Some(fault);
    }

    /** One translation. The source's fault for a failed entry update needs no branch:
        the entry lies in a RAM page, so the store always succeeds. */
    method Translate(memory: PhysicalMemory, q: Request) returns (r: Result<u32, MmuFault>)
      requires Valid() && memory.Valid()
      modifies this`lastFault, memory.ram
      ensures !enabled ==> r == Ok(q.address) && memory.Contents() == old(memory.Contents())
      ensures enabled ==> memory.Contents() == AfterWalk(old(memory.Contents()), ttbr0, q)
      ensures enabled ==> match Resolve(old(memory.Contents()), ttbr0, q)
                          case Ok(physical) => r == Ok(physical)
                          case Err(cause) => r == Err(MmuFault(q.address, cause, q.userMode, q.access))
      ensures lastFault == if r.Err? then Some(r.error) else old(lastFault)
    {
      hide Authorize, Unpack, Pack, TableAddress, WordIn, DirectoryIndex, TableIndex, ReadU32, WriteRange, Recorded, InPage,
           PhysicalMemory.Contents;
      if !enabled { return Ok(q.address); }
      var raw := memory.ReadWord(WordIn(ttbr0, DirectoryIndex(q.address)));
      var table := if raw.Ok? then TableAddress(raw.value) else None;
      if table.None? {
        var fault := Fault(q, Translation);
        return Err(fault);
      }
      var slot := WordIn(table.value, TableIndex(q.address));
      assert Some(slot) == EntryAddress(memory.Contents(), ttbr0, q.address);
      var entry := memory.ReadWord(slot);
      if entry.Err? {
        var fault := Fault(q, Translation);
        return Err(fault);
      }
      var page := Authorize(Unpack(entry.value), q.access, q.userMode);
      if page.Err? {
        var fault := Fault(q, page.error);
        return Err(fault);
      }
      var updated := Recorded(entry.value, q.access);
      if updated != entry.value { StoreEntry(memory, slot, updated); }
      return Ok(InPage(page.value, q.address));
    }
  }

  /** The write-back of an updated entry, which lies in a RAM page. */
  method StoreEntry(memory: PhysicalMemory, slot: u32, entry: u32)
    requires memory.Valid() && InRam(slot, 4) && slot % 4 == 0
    modifies memory.ram
    ensures WriteRange(old(memory.Contents()), slot, Le32(entry)) == Ok(memory.Contents())
  {
    hide Le32, WriteRange, ReadU32;
    ReadAfterWrite(memory.Contents(), slot, entry, slot);
    var stored := memory.Store(slot, Le32(entry));
    assert stored.Ok?;
  }

  // ---- Walks never disturb each other ----

  /** Recording an access changes nothing that authorization reads. */
  lemma RecordedAuthorizesAlike(entry: u32, recorded: Access, access: Access, userMode: bool)
    ensures Authorize(Unpack(Recorded(entry, recorded)), access, userMode) == Authorize(Unpack(entry), access, userMode)
  {
    hide Unpack, Pack;
    PackUnpack(Unpack(entry).Recorded(recorded), entry);
  }

  /** A word that authorizes some access is not a legal directory entry, before or after
      an access is recorded in it: each permission bit is a reserved bit there. */
  lemma GrantingEntryIsNoDirectory(entry: u32, access: Access, userMode: bool, recorded: Access)
    requires Authorize(Unpack(entry), access, userMode).Ok?
    ensures TableAddress(entry).None? && TableAddress(Recorded(entry, recorded)).None?
  {
    hide Unpack, Pack, RegionOf, IsTargetPage;
    PackUnpack(Unpack(entry).Recorded(recorded), entry);
  }

  /** A walk leaves every aligned word alone except the entry it used, which it records. */
  lemma WordAfterWalk(m: Mem, root: u32, q: Request, other: u32)
    requires m.Valid() && PageAligned(root) && other % 4 == 0
    ensures ReadU32(AfterWalk(m, root, q), other)
         == if Resolve(m, root, q).Ok? && EntryAddress(m, root, q.address) == Some(other)
            then Ok(Recorded(ReadU32(m, other).value, q.access)) else ReadU32(m, other)
  {
    hide Unpack, Pack, ReadU32, WriteRange, Authorize, EntryAddress, Recorded;
    if Resolve(m, root, q).Ok? {
      var slot := EntryAddress(m, root, q.address).value;
      ReadAfterWrite(m, slot, Recorded(ReadU32(m, slot).value, q.access), other);
    }
  }

  /** The walk's own bookkeeping changes the outcome of no walk, from this directory or
      any other, even when page tables and directories share pages. */
  lemma WalkPreservesResolve(m: Mem, root: u32, q: Request, otherRoot: u32, other: Request)
    requires m.Valid() && PageAligned(root) && PageAligned(otherRoot)
    ensures EntryAddress(AfterWalk(m, root, q), otherRoot, other.address) == EntryAddress(m, otherRoot, other.address)
    ensures Resolve(AfterWalk(m, root, q), otherRoot, other) == Resolve(m, otherRoot, other)
  {
    hide ReadU32, Authorize, AfterWalk, WordIn, Recorded, TableAddress;
    var directory := WordIn(otherRoot, DirectoryIndex(other.address));
    WordAfterWalk(m, root, q, directory);
    if Resolve(m, root, q).Ok? && EntryAddress(m, root, q.address) == Some(directory) {
      GrantingEntryIsNoDirectory(ReadU32(m, directory).value, q.access, q.userMode, q.access);
    }
    if EntryAddress(m, otherRoot, other.address).Some? {
      var slot := EntryAddress(m, otherRoot, other.address).value;
      WordAfterWalk(m, root, q, slot);
      if ReadU32(m, slot).Ok? {
        RecordedAuthorizesAlike(ReadU32(m, slot).value, q.access, other.access, other.userMode);
      }
    }
  }

  ghost predicate AllRootsAligned(walks: seq<(u32, Request)>) {
    forall i | 0 <= i < |walks| :: PageAligned(walks[i].0)
  }

  /** Memory after a sequence of walks, each from its own directory. */
  ghost function AfterWalks(m: Mem, walks: seq<(u32, Request)>): (r: Mem)
    requires m.Valid() && AllRootsAligned(walks)
    ensures r.Valid()
    decreases |walks|
  {
    if walks == [] then m else AfterWalks(AfterWalk(m, walks[0].0, walks[0].1), walks[1..])
  }

  /** Any run of translations preserves the meaning of every page table. */
  lemma {:induction false} WalksPreserveResolve(m: Mem, walks: seq<(u32, Request)>, root: u32, q: Request)
    requires m.Valid() && PageAligned(root) && AllRootsAligned(walks)
    ensures Resolve(AfterWalks(m, walks), root, q) == Resolve(m, root, q)
    decreases |walks|
  {
    hide Resolve, AfterWalk;
    if walks != [] {
      WalkPreservesResolve(m, walks[0].0, walks[0].1, root, q);
      WalksPreserveResolve(AfterWalk(m, walks[0].0, walks[0].1), walks[1..], root, q);
    }
  }

  /** Repeating a walk gives the same address and writes nothing more. */
  lemma RepeatedWalkIsIdle(m: Mem, root: u32, q: Request)
    requires m.Valid() && PageAligned(root)
    ensures Resolve(AfterWalk(m, root, q), root, q) == Resolve(m, root, q)
    ensures AfterWalk(AfterWalk(m, root, q), root, q) == AfterWalk(m, root, q)
  {
    WalkPreservesResolve(m, root, q, root, q);
    if Resolve(m, root, q).Ok? {
      var slot := EntryAddress(m, root, q.address).value;
      var entry := ReadU32(m, slot).value;
      WordAfterWalk(m, root, q, slot);
      PackUnpack(Unpack(entry).Recorded(q.access), entry);
      hide *;
      assert Recorded(Recorded(entry, q.access), q.access) == Recorded(entry, q.access);
    }
  }

  // ---- Frame and confinement ----

  lemma SameWordChangesNothing(m: Mem, slot: u32)
    requires m.Valid() && InRam(slot, 4)
    ensures ReadU32(m, slot).Ok? && Splice(m.ram, slot - RAM_BASE, Le32(ReadU32(m, slot).value)) == m.ram
  {
    hide Le32, FromLe32, ReadU32;
    var offset := slot - RAM_BASE;
    ReadInRam(m, slot);
    FromLe32RoundTrip(m.ram[offset..offset + 4]);
    assert Splice(m.ram, offset, m.ram[offset..offset + 4]) == m.ram;
  }

  /** A failed walk changes no byte. A successful one changes nothing but one RAM word,
      in which it sets Accessed, and Dirty exactly when the access is a write. */
  lemma WalkFrame(m: Mem, root: u32, q: Request)
    requires m.Valid() && PageAligned(root)
    ensures Resolve(m, root, q).Err? ==> AfterWalk(m, root, q) == m
    ensures Resolve(m, root, q).Ok? ==>
      var slot := EntryAddress(m, root, q.address).value;
      var before := Unpack(ReadU32(m, slot).value);
      var after := before.(accessed := true, dirty := before.dirty || q.access.Write?);
      && InRam(slot, 4)
      && AfterWalk(m, root, q) == m.(ram := Splice(m.ram, slot - RAM_BASE, Le32(Pack(after))))
  {
    hide Unpack, Pack, Authorize, EntryAddress, Le32, FromLe32, ReadU32, WriteRange, Splice;
    if Resolve(m, root, q).Ok? {
      var slot := EntryAddress(m, root, q.address).value;
      SameWordChangesNothing(m, slot);
      RamWriteSucceeds(m, slot, Le32(Recorded(ReadU32(m, slot).value, q.access)));
    }
  }

  /** A successful walk yields an implemented address, keeps user mode off every device
      page and never lets a write reach a ROM. */
  lemma WalkConfined(m: Mem, root: u32, q: Request)
    requires m.Valid() && PageAligned(root) && Resolve(m, root, q).Ok?
    ensures var region := RegionOf(Resolve(m, root, q).value);
      && region.Some?
      && (q.userMode ==> !region.value.IsDevice())
      && (q.access.Write? ==> !region.value.BootRom? && !region.value.SystemRom?)
  {
    hide Unpack, ReadU32, EntryAddress, RegionOf, Authorize;
    var entry := Unpack(ReadU32(m, EntryAddress(m, root, q.address).value).value);
    AuthorizedPage(entry, q.access, q.userMode);
    SamePage(Authorize(entry, q.access, q.userMode).value, q.address % 4096);
  }

  lemma AuthorizedPage(entry: Pte, access: Access, userMode: bool)
    requires entry.WellFormed() && Authorize(entry, access, userMode).Ok?
    ensures var page := Authorize(entry, access, userMode).value;
      var region := RegionOf(page);
      && PageAligned(page) && region.Some? && (userMode ==> !region.value.IsDevice())
      && (access.Write? ==> !region.value.BootRom? && !region.value.SystemRom?)
  {
    hide RegionOf;
  }

  /** Regions are made of whole pages. */
  lemma SamePage(page: u32, offset: int)
    requires PageAligned(page) && 0 <= offset < 4096 && RegionOf(page).Some?
    ensures page + offset < 0x1_0000_0000 && RegionOf(page + offset) == RegionOf(page)
  {}
}
