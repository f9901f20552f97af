/** What a page walk reads and writes, on raw words and addresses in numbers
    (crates/minemu-core/src/mmu.rs, docs/platform/exceptions-and-mmu-v1.md). */
module PageWords {
  import opened Platform
  import opened Bytes
  import opened Memory
  import opened Mmu

  predicate IsDevicePage(page: int) { 0x1000_0000 <= page < 0x1000_6000 || page == 0x1000_f000 }

  predicate IsRomPage(page: int) { 0 <= page < 0x1_0000 || 0x0800_0000 <= page < 0x0900_0000 }

  predicate IsRamPage(page: int) { 0x4000_0000 <= page <= 0x43ff_f000 }

  /** The bit of a raw entry that a kind of access needs. */
  predicate Allows(e: u32, access: Access) {
    match access
    case Write => e / 2 % 2 == 1
    case Fetch => e / 8 % 2 == 1
    case Read => e / 16 % 2 == 1
  }

  /** What a valid or invalid, granting or denying, user or kernel entry of page `page` makes of
      an access. */
  function Decision(valid: bool, granted: bool, user: bool, page: int, access: Access): Result<int, FaultCause> {
    var denied := match access case Fetch => ExecuteProtection case Read => ReadProtection case Write => WriteProtection;
    if !valid then Err(Translation)
    else if !granted then Err(denied)
    else if user && IsDevicePage(page) then Err(denied)
    else if !IsDevicePage(page) && !IsRomPage(page) && !IsRamPage(page) then Err(Translation)
    else if access.Write? && IsRomPage(page) then Err(WriteProtection)
    else Ok(page)
  }

  /** The same for a raw entry: bit 0 is valid, bit 1 write, bit 2 user, bit 3 execute, bit 4
      read, and the upper twenty bits are the page. */
  function Decided(e: u32, access: Access, userMode: bool): Result<int, FaultCause> {
    Decision(e % 2 == 1, Allows(e, access) && (userMode ==> e / 4 % 2 == 1), e / 4 % 2 == 1, e - e % 4096, access)
  }

  lemma Parity(low: int, high: int)
    ensures (low + 2 * high) % 2 == low % 2
  {}

  lemma Halves(low: int, high: int)
    ensures (low + 32 * high) / 2 == low / 2 + 16 * high && (low + 32 * high) / 4 == low / 4 + 8 * high
  {}

  lemma Eighths(low: int, high: int)
    ensures (low + 32 * high) / 8 == low / 8 + 4 * high && (low + 32 * high) / 16 == low / 16 + 2 * high
  {}

  /** The bits below bit 5 do not depend on those above. */
  lemma LowBits(low: int, high: int)
    ensures low % 2 == (low + 32 * high) % 2 && low / 2 % 2 == (low + 32 * high) / 2 % 2 && low / 4 % 2 == (low + 32 * high) / 4 % 2
    ensures low / 8 % 2 == (low + 32 * high) / 8 % 2 && low / 16 % 2 == (low + 32 * high) / 16 % 2
  {
    Halves(low, high);
    Eighths(low, high);
    Parity(low, 16 * high);
    Parity(low / 2, 8 * high);
    Parity(low / 4, 4 * high);
    Parity(low / 8, 2 * high);
    Parity(low / 16, high);
  }

  lemma HighBits(e: u32)
    ensures e / 32 / 2 == e / 64 && e / 32 / 2 / 2 / 32 == e / 4096
  {}

  lemma EntryPage(e: u32)
    ensures Unpack(e).PageBase() == e - e % 4096
  {
    HighBits(e);
  }

  lemma EntryBits(e: u32)
    ensures var p := Unpack(e);
      && p.IsValid() == (e % 2 == 1) && p.Writable() == (e / 2 % 2 == 1) && p.User() == (e / 4 % 2 == 1)
      && p.Executable() == (e / 8 % 2 == 1) && p.Readable() == (e / 16 % 2 == 1)
      && p.accessed == (e / 32 % 2 == 1) && p.dirty == (e / 64 % 2 == 1)
      && p.PageBase() == e - e % 4096
  {
    LowBits(e % 32, e / 32);
    HighBits(e);
  }

  lemma PageKinds(page: u32)
    requires page % 4096 == 0
    ensures IsTargetPage(page) <==> IsDevicePage(page) || IsRomPage(page) || IsRamPage(page)
    ensures IsDevicePage(page) <==> RegionOf(page).Some? && RegionOf(page).value.IsDevice()
    ensures IsRomPage(page) <==> RegionOf(page).Some? && (RegionOf(page).value.BootRom? || RegionOf(page).value.SystemRom?)
    ensures IsTablePage(page) <==> IsRamPage(page)
  {}

  lemma PermitsAllows(e: u32, access: Access, userMode: bool)
    ensures Permits(Unpack(e), access, userMode) <==> Allows(e, access) && (userMode ==> e / 4 % 2 == 1)
  {
    EntryBits(e);
    hide Unpack, Pte.Writable, Pte.User, Pte.Executable, Pte.Readable;
  }

  lemma AuthorizeIsDecision(p: Pte, access: Access, userMode: bool)
    requires p.WellFormed()
    ensures match Decision(p.IsValid(), Permits(p, access, userMode), p.User(), p.PageBase(), access)
            case Ok(page) => Authorize(p, access, userMode) == Ok(p.PageBase()) && page == p.PageBase()
            case Err(cause) => Authorize(p, access, userMode) == Err(cause)
  {
    hide Pte.IsValid, Pte.User, Permits, RegionOf, IsTargetPage, IsDevicePage, IsRomPage, IsRamPage;
    PageKinds(p.PageBase());
  }

  lemma AuthorizeDecides(e: u32, access: Access, userMode: bool)
    ensures match Decided(e, access, userMode)
            case Ok(page) => 0 <= page <= 0xffff_f000 && page % 4096 == 0 && Authorize(Unpack(e), access, userMode) == Ok(page)
            case Err(cause) => Authorize(Unpack(e), access, userMode) == Err(cause)
  {
    EntryBits(e);
    PermitsAllows(e, access, userMode);
    AuthorizeIsDecision(Unpack(e), access, userMode);
    hide Unpack, Pte.IsValid, Pte.User, Permits, Allows, Authorize, Decision;
  }

  lemma BelowPage(low: int, page: int)
    requires 0 <= low < 4096
    ensures (low + 4096 * page) % 4096 == low
  {}

  /** The twelve bits below the page number. */
  lemma OffsetBits(e: u32)
    ensures var p := Unpack(e); e % 4096 == p.flags + 32 * Bit(p.accessed) + 64 * Bit(p.dirty) + 128 * p.software
  {
    var p := Unpack(e);
    PackUnpack(p, e);
    hide Unpack;
    BelowPage(p.flags + 32 * Bit(p.accessed) + 64 * Bit(p.dirty) + 128 * p.software, p.page);
  }

  lemma OnlyValidBit(d: u32)
    ensures var p := Unpack(d);
      (p.flags <= 1 && !p.accessed && !p.dirty && p.software == 0 && p.IsValid()) <==> d % 4096 == 1
  {
    OffsetBits(d);
    hide Unpack;
  }

  /** A raw directory entry names a table exactly when it is a RAM page plus the valid bit. */
  lemma DirectoryWord(d: u32)
    ensures TableAddress(d) == if d % 4096 == 1 && IsRamPage(d - 1) then Some(d - 1) else None
  {
    OnlyValidBit(d);
    EntryPage(d);
    PageKinds(Unpack(d).PageBase());
    hide Unpack, Pte.PageBase, Pte.IsValid, IsTablePage, IsRamPage;
  }

  lemma IndicesOf(i: nat, j: nat, o: nat)
    requires i < 1024 && j < 1024 && o < 4096
    ensures var a := 0x40_0000 * i + 0x1000 * j + o;
      DirectoryIndex(a) == i && TableIndex(a) == j && a % 4096 == o
  {
    assert (0x40_0000 * i + 0x1000 * j + o) / 4096 == 1024 * i + j;
  }

  /** What a walk from directory `root` makes of an access, when it uses word `i` of the
      directory and word `j` of its table at offset `o`. */
  ghost predicate WalkIs(m: Mem, root: u32, q: Request, i: nat, j: nat, o: nat)
    requires m.Valid() && root % 4096 == 0 && i < 1024 && j < 1024
  {
    var d := ReadU32(m, root + 4 * i);
    if d.Err? || d.value % 4096 != 1 || !IsRamPage(d.value - 1)
    then EntryAddress(m, root, q.address) == None && Resolve(m, root, q) == Err(Translation)
    else
      var e := ReadU32(m, d.value - 1 + 4 * j);
      && EntryAddress(m, root, q.address) == Some(d.value - 1 + 4 * j) && e.Ok?
      && match Decided(e.value, q.access, q.userMode)
         case Ok(page) => page + o < 0x1_0000_0000 && Resolve(m, root, q) == Ok(page + o)
         case Err(cause) => Resolve(m, root, q) == Err(cause)
  }

  lemma WalkAtIndices(m: Mem, root: u32, q: Request, i: nat, j: nat, o: nat)
    requires m.Valid() && root % 4096 == 0 && i < 1024 && j < 1024 && o < 4096
    requires DirectoryIndex(q.address) == i && TableIndex(q.address) == j && q.address % 4096 == o
    ensures WalkIs(m, root, q, i, j, o)
  {
    hide ReadU32, Unpack, TableAddress, DirectoryIndex, TableIndex, Decided, Authorize;
    var d := ReadU32(m, root + 4 * i);
    if d.Ok? {
      DirectoryWord(d.value);
      if d.value % 4096 == 1 && IsRamPage(d.value - 1) {
        ReadInRam(m, d.value - 1 + 4 * j);
        AuthorizeDecides(ReadU32(m, d.value - 1 + 4 * j).value, q.access, q.userMode);
      }
    }
  }

  /** The top ten bits of an address select the directory word, the next ten the table word. */
  lemma WalkOnWords(m: Mem, root: u32, i: nat, j: nat, o: nat, access: Access, userMode: bool)
    requires m.Valid() && root % 4096 == 0 && i < 1024 && j < 1024 && o < 4096
    ensures WalkIs(m, root, Request(0x40_0000 * i + 0x1000 * j + o, access, userMode), i, j, o)
  {
    hide WalkIs, DirectoryIndex, TableIndex;
    IndicesOf(i, j, o);
    WalkAtIndices(m, root, Request(0x40_0000 * i + 0x1000 * j + o, access, userMode), i, j, o);
  }

  /** A raw word with bit 5 set, and for a write bit 6. */
  function RecordedIn(e: u32, access: Access): int {
    e + (if e / 32 % 2 == 0 then 32 else 0) + (if access.Write? && e / 64 % 2 == 0 then 64 else 0)
  }

  lemma RecordedWord(e: u32, access: Access)
    ensures Recorded(e, access) == RecordedIn(e, access)
  {
    EntryBits(e);
    PackUnpack(Unpack(e), e);
    hide Unpack;
  }

  /** A successful walk sets those bits in the word it used, and changes no other aligned word. */
  lemma WalkMarksWord(
    m: Mem, root: u32, i: nat, j: nat, o: nat, access: Access, userMode: bool, table: u32, e: u32, other: u32)
    requires m.Valid() && root % 4096 == 0 && i < 1024 && j < 1024 && o < 4096 && other % 4 == 0
    requires table % 4096 == 0 && IsRamPage(table) && ReadU32(m, root + 4 * i) == Ok(table + 1)
    requires ReadU32(m, table + 4 * j) == Ok(e) && Decided(e, access, userMode).Ok?
    ensures ReadU32(AfterWalk(m, root, Request(0x40_0000 * i + 0x1000 * j + o, access, userMode)), other)
      == if other != table + 4 * j then ReadU32(m, other)
         else Ok(RecordedIn(e, access))
  {
    hide ReadU32, Decided, AfterWalk, Resolve, EntryAddress, Recorded;
    var q := Request(0x40_0000 * i + 0x1000 * j + o, access, userMode);
    WalkOnWords(m, root, i, j, o, access, userMode);
    WordAfterWalk(m, root, q, other);
    RecordedWord(e, access);
  }

  /** A page can become the directory exactly when it is an aligned page of RAM. */
  lemma DirectoryPages(value: u32)
    ensures DecodeSetTtbr0(value) == if value % 4096 == 0 && IsRamPage(value) then Some(SetTtbr0(value)) else None
  {
    if value % 4096 == 0 { PageKinds(value); }
  }
}
