/** The program flash and the three low-level routines of the firmware updater.

    Erasing sets a whole sector to 0xFF; writing can only clear bits.  Addresses are absolute,
    as in the source; `mem[a - FLASH_BASE]` is the byte at address a. */
module FlashMemory {
  const FLASH_BASE: nat := 0x6000_0000
  const FLASH_SIZE: nat := 0x80_0000
  const SECTOR: nat := 0x1000
  const FLASH_RESERVE: nat := 80 * SECTOR
  const CAPACITY: nat := FLASH_SIZE - FLASH_RESERVE // bytes below the reserve
  const WORD: nat := 4
  const ERASED_BYTE: bv8 := 0xFF
  const ERASED_WORD: seq<bv8> := [ERASED_BYTE, ERASED_BYTE, ERASED_BYTE, ERASED_BYTE]

  predicate AtWord(a: nat) { a % WORD == 0 }
  predicate AtSector(a: nat) { a % SECTOR == 0 }
  predicate InFlash(a: nat) { FLASH_BASE <= a < FLASH_BASE + FLASH_SIZE }

  ghost predicate Erased(m: seq<bv8>, lo: nat, hi: nat)
    requires hi <= |m|
  {
    forall i | lo <= i < hi :: m[i] == ERASED_BYTE
  }

  // The end of the sector that i lies in, or i itself at a boundary.
  function SectorEnd(i: nat): nat { (i + SECTOR - 1) / SECTOR * SECTOR }

  // The start of the sector that i lies in.
  function SectorOf(i: nat): nat { i / SECTOR * SECTOR }

  lemma SectorAround(addr: nat, sector: nat)
    requires InFlash(addr) && sector == addr - addr % SECTOR
    ensures FLASH_BASE <= sector && sector - FLASH_BASE + SECTOR <= FLASH_SIZE
    ensures sector - FLASH_BASE == SectorOf(addr - FLASH_BASE) && AtSector(sector)
  {
  }

  lemma WordInSector(sector: nat, k: nat)
    requires AtSector(sector)
    ensures AtWord(sector + WORD * k)
  {
  }

  lemma NothingYet(m: seq<bv8>, lo: nat)
    requires lo <= |m|
    ensures Erased(m, lo, lo)
  {
  }

  lemma WordsErased(m: seq<bv8>, lo: nat, o: nat)
    requires lo <= o && o + WORD <= |m| && Erased(m, lo, o) && m[o..o + WORD] == ERASED_WORD
    ensures Erased(m, lo, o + WORD)
  {
    forall i | lo <= i < o + WORD ensures m[i] == ERASED_BYTE {
      if o <= i { assert m[o..o + WORD][i - o] == m[i]; }
    }
  }

  lemma WordNotErased(m: seq<bv8>, lo: nat, o: nat, hi: nat)
    requires lo <= o && o + WORD <= hi <= |m| && m[o..o + WORD] != ERASED_WORD
    ensures !Erased(m, lo, hi)
  {
    var j := NotErasedAt(m[o..o + WORD]);
    assert m[o + j] != ERASED_BYTE;
  }

  // What a cell holds after writing w over it.
  function Programmed(cell: bv8, w: bv8): bv8 { cell & w }

  // after is before with data programmed over it from position at on.
  ghost predicate ProgrammedOver(before: seq<bv8>, after: seq<bv8>, at: int, data: seq<bv8>) {
    && |after| == |before|
    && forall i | 0 <= i < |before| ::
         after[i] == if at <= i < at + |data| then Programmed(before[i], data[i - at]) else before[i]
  }

  class Flash {
    const mem: array<bv8>

    ghost predicate Valid() { mem.Length == FLASH_SIZE }

    constructor (image: seq<bv8>)
      requires |image| == FLASH_SIZE
      ensures Valid() && fresh(mem) && mem[..] == image
    {
      mem := new bv8[FLASH_SIZE](i requires 0 <= i < FLASH_SIZE => image[i]);
    }

    method ReadWord(addr: nat) returns (w: seq<bv8>)
      requires Valid() && InFlash(addr) && AtWord(addr)
      ensures w == mem[addr - FLASH_BASE..addr - FLASH_BASE + WORD]
    {
      w := mem[addr - FLASH_BASE..addr - FLASH_BASE + WORD];
    }

    // The device: a word write clears bits.
    method WriteWord(addr: nat, w: seq<bv8>)
      requires Valid() && InFlash(addr) && AtWord(addr) && |w| == WORD
      modifies mem
      ensures ProgrammedOver(old(mem[..]), mem[..], addr - FLASH_BASE, w)
    {
      var o := addr - FLASH_BASE;
      forall i | o <= i < o + WORD {
        mem[i] := Programmed(mem[i], w[i - o]);
      }
    }

    // The device: erasing works on the whole sector around the address.
    method EraseSector(addr: nat)
      requires Valid() && InFlash(addr)
      modifies mem
      ensures forall i | 0 <= i < FLASH_SIZE :: mem[i] ==
                if i / 0x1000 == (addr - 0x6000_0000) / 0x1000 then 0xFF else old(mem[i])
    {
      var s := (addr - FLASH_BASE) / SECTOR;
      forall i | s * SECTOR <= i < s * SECTOR + SECTOR {
        mem[i] := ERASED_BYTE;
      }
    }

    /** Scans the sector around an address word by word. */
    method SectorNotErased(addr: nat) returns (dirty: bool)
      requires Valid() && InFlash(addr)
      ensures !dirty <==>
              Erased(mem[..], SectorOf(addr - FLASH_BASE), SectorOf(addr - FLASH_BASE) + SECTOR)
    {
      hide AtWord, Erased, ERASED_WORD, SectorOf;
      var sector := addr - addr % SECTOR;
      SectorAround(addr, sector);
      ghost var start, m := sector - FLASH_BASE, mem[..];
      NothingYet(m, start);
      for k := 0 to SECTOR / WORD
        invariant Erased(m, start, start + WORD * k)
      {
        WordInSector(sector, k);
        var w := ReadWord(sector + WORD * k);
        assert w == m[start + WORD * k..start + WORD * k + WORD];
        if w != ERASED_WORD {
          WordNotErased(m, start, start + WORD * k, start + SECTOR);
          return true;
        }
        WordsErased(m, start, start + WORD * k);
      }
      return false;
    }

    // The step both copy loops of the updater share: at a sector boundary, make the sector erased.
    method EraseIfDirty(addr: nat)
      requires Valid() && InFlash(addr)
      modifies mem
      ensures forall i | 0 <= i < FLASH_SIZE :: mem[i] ==
                if AtSector(addr) && addr <= FLASH_BASE + i < addr + SECTOR then ERASED_BYTE else old(mem[i])
    {
      if AtSector(addr) {
        var dirty := SectorNotErased(addr);
        if dirty { EraseSector(addr); }
      }
    }
  }

  // The scan: the highest programmed word below the reserve, if there is one at all.
  method FindLastWord(flash: Flash) returns (addr: nat, ghost at: nat)
    requires flash.Valid()
    requires !Erased(flash.mem[..], 0, CAPACITY)
    ensures FLASH_BASE <= addr < FLASH_BASE + CAPACITY && AtWord(addr)
    ensures Erased(flash.mem[..], addr - FLASH_BASE + WORD, CAPACITY)
    ensures addr <= FLASH_BASE + at < addr + WORD && flash.mem[at] != ERASED_BYTE
  {
    hide AtWord, Erased, ERASED_WORD;
    ghost var m := flash.mem[..];
    NothingAbove(m);
    addr := FLASH_BASE + CAPACITY - WORD;
    var w := flash.ReadWord(addr);
    while w == ERASED_WORD
      invariant FLASH_BASE <= addr < FLASH_BASE + CAPACITY && AtWord(addr)
      invariant w == m[addr - FLASH_BASE..addr - FLASH_BASE + WORD]
      invariant Erased(m, addr - FLASH_BASE + WORD, CAPACITY)
      decreases addr
    {
      WordErased(m, addr - FLASH_BASE, CAPACITY);
      WordBelow(addr);
      addr := addr - WORD;
      w := flash.ReadWord(addr);
    }
    ghost var j := NotErasedAt(w);
    at := addr - FLASH_BASE + j;
    assert m[at] == w[j];
  }

  lemma NothingAbove(m: seq<bv8>)
    requires |m| == FLASH_SIZE
    ensures Erased(m, CAPACITY, CAPACITY) && AtWord(FLASH_BASE + CAPACITY - WORD)
  {
  }

  lemma WordBelow(addr: nat)
    requires AtWord(addr) && FLASH_BASE <= addr
    ensures addr == FLASH_BASE || (FLASH_BASE + WORD <= addr && AtWord(addr - WORD))
  {
  }

  lemma WordErased(m: seq<bv8>, o: nat, hi: nat)
    requires o + WORD <= hi <= |m| && m[o..o + WORD] == ERASED_WORD && Erased(m, o + WORD, hi)
    ensures Erased(m, o, hi)
  {
    forall i | o <= i < hi ensures m[i] == ERASED_BYTE {
      if i < o + WORD { assert m[o..o + WORD][i - o] == m[i]; }
    }
  }

  lemma NotErasedAt(w: seq<bv8>) returns (j: nat)
    requires |w| == WORD && w != ERASED_WORD
    ensures j < WORD && w[j] != ERASED_BYTE
  {
    j :| 0 <= j < WORD && w[j] != ERASED_BYTE;
  }

  lemma NextWord(addr: nat)
    requires AtWord(addr) && addr < FLASH_BASE + CAPACITY
    ensures AtWord(addr + WORD) && addr + WORD <= FLASH_BASE + CAPACITY
  {
  }

  lemma RoundUp(addr: nat, rounded: nat)
    requires AtWord(addr) && FLASH_BASE < addr <= FLASH_BASE + CAPACITY
    requires rounded == if addr % SECTOR > 0 then addr + (SECTOR - addr % SECTOR) else addr
    ensures AtSector(rounded) && addr <= rounded <= FLASH_BASE + CAPACITY
    ensures rounded - SECTOR <= addr - WORD && FLASH_BASE + SECTOR <= rounded
  {
    hide AtWord, AtSector;
    var q, r := SectorDigits(addr);
    RoundUpDigits(addr, q, r, Words(addr), rounded);
  }

  lemma SectorDigits(addr: nat) returns (q: nat, r: nat)
    ensures addr == SECTOR * q + r && r < SECTOR && r == addr % SECTOR
  {
    q, r := addr / SECTOR, addr % SECTOR;
  }

  // Sector q plus r bytes, rounded up to a sector.
  lemma RoundUpDigits(addr: nat, q: nat, r: nat, words: nat, rounded: nat)
    requires addr == SECTOR * q + r && r < SECTOR && addr == WORD * words
    requires FLASH_BASE < addr <= FLASH_BASE + CAPACITY
    requires rounded == if r > 0 then SECTOR * q + SECTOR else SECTOR * q
    ensures AtSector(rounded) && addr <= rounded <= FLASH_BASE + CAPACITY
    ensures rounded - SECTOR <= addr - WORD && FLASH_BASE + SECTOR <= rounded
  {
    hide AtSector;
    SectorMultiple(q);
    SectorMultiple(q + 1);
  }

  /** Finds the download buffer: the least sector boundary above all programmed words such that
      everything from there up to the reserve is erased.  Some word below the reserve must be
      programmed (the running firmware is). */
  method BufferInit(flash: Flash) returns (addr: nat, size: nat)
    requires flash.Valid()
    requires !Erased(flash.mem[..], 0, CAPACITY)
    ensures AtSector(addr) && FLASH_BASE + SECTOR <= addr <= FLASH_BASE + CAPACITY
    ensures addr % 0x1000 == 0 && 0x6000_1000 <= addr && addr + size == 0x607B_0000
    ensures Erased(flash.mem[..], addr - FLASH_BASE, CAPACITY)
    ensures !Erased(flash.mem[..], addr - FLASH_BASE - SECTOR, CAPACITY)
  {
    hide AtWord, AtSector;
    ghost var at;
    addr, at := FindLastWord(flash);
    NextWord(addr);
    addr := addr + WORD;
    ghost var unrounded := addr;
    if addr % SECTOR > 0 { addr := addr + (SECTOR - addr % SECTOR); }
    RoundUp(unrounded, addr);
    size := FLASH_BASE + CAPACITY - addr;
    assert flash.mem[..][at] != ERASED_BYTE;
  }

  lemma NextSector(address: nat, end: nat)
    requires AtSector(address) && FLASH_BASE <= address
    ensures AtSector(address + SECTOR)
    ensures if address - FLASH_BASE < end then address - FLASH_BASE + SECTOR <= SectorEnd(end)
            else SectorEnd(end) <= address - FLASH_BASE
    ensures end <= SectorEnd(end)
  {
  }

  /** Erases the sectors from start up to the sector that holds the last byte. */
  method EraseBlock(flash: Flash, start: nat, size: nat)
    requires flash.Valid() && FLASH_BASE <= start && start + size <= FLASH_BASE + FLASH_SIZE && AtSector(start)
    modifies flash.mem
    ensures forall i | 0 <= i < FLASH_SIZE :: flash.mem[i] ==
              if start - FLASH_BASE <= i < SectorEnd(start - FLASH_BASE + size) then ERASED_BYTE else old(flash.mem[i])
  {
    hide AtSector, SectorEnd;
    ghost var end := start - FLASH_BASE + size;
    NextSector(start, end);
    var address := start;
    while address < start + size
      invariant AtSector(address) && start <= address <= FLASH_BASE + SectorEnd(start - FLASH_BASE + size)
      invariant forall i | 0 <= i < FLASH_SIZE :: flash.mem[i] ==
                  if start - FLASH_BASE <= i < address - FLASH_BASE then ERASED_BYTE else old(flash.mem[i])
    {
      NextSector(address, end);
      flash.EraseIfDirty(address);
      address := address + SECTOR;
    }
    NextSector(address, end);
  }

  // One turn of the copy loop.  The word copied must not lie in the sector that gets erased.
  method MoveWord(flash: Flash, dst: nat, src: nat)
    requires flash.Valid() && FLASH_BASE <= dst < src < FLASH_BASE + FLASH_SIZE && AtWord(dst) && AtWord(src)
    requires if AtSector(dst) then dst + SECTOR <= src else
               forall o | dst <= FLASH_BASE + o < dst + WORD :: flash.mem[o] == ERASED_BYTE
    modifies flash.mem
    ensures forall i | dst <= FLASH_BASE + i < dst + WORD :: flash.mem[i] == old(flash.mem[i + (src - dst)])
    ensures forall i | 0 <= i < FLASH_SIZE && !(dst <= FLASH_BASE + i < dst + WORD) :: flash.mem[i] ==
              if AtSector(dst) && dst <= FLASH_BASE + i < dst + SECTOR then ERASED_BYTE else old(flash.mem[i])
  {
    flash.EraseIfDirty(dst);
    var value := flash.ReadWord(src);
    assert forall j | 0 <= j < WORD :: value[j] == flash.mem[src - FLASH_BASE + j];
    flash.WriteWord(dst, value);
  }

  ghost function Words(size: nat): (n: nat)
    requires AtWord(size)
    ensures size == WORD * n
  {
    size / WORD
  }

  ghost function Sectors(size: nat): (n: nat)
    requires AtSector(size)
    ensures size == SECTOR * n
  {
    size / SECTOR
  }

  lemma BaseAligned()
    ensures AtSector(FLASH_BASE)
  {
  }

  lemma SectorMultiple(t: nat)
    ensures AtSector(SECTOR * t)
  {
  }

  lemma Alignment(base: nat, offset: nat, k: nat, t: nat)
    requires AtSector(base) && offset == WORD * k && SECTOR * t - SECTOR < offset <= SECTOR * t
    ensures AtWord(base + offset)
    ensures AtSector(base + offset) <==> offset == SECTOR * t
  {
    var b := base / SECTOR;
    BelowMultiple(base + offset, b + t, SECTOR * t - offset);
    WordMultiple(base + offset, SECTOR / WORD * b + k);
  }

  lemma BelowMultiple(x: nat, q: nat, d: nat)
    requires d < SECTOR && x == SECTOR * q - d
    ensures AtSector(x) <==> d == 0
  {
  }

  lemma WordMultiple(x: nat, q: nat)
    requires x == WORD * q
    ensures AtWord(x)
  {
  }

  // At word k, with t sectors begun.
  ghost predicate OnGrid(offset: nat, k: nat, t: nat) {
    offset == WORD * k && SECTOR * t - SECTOR < offset <= SECTOR * t
  }

  lemma GridStep(offset: nat, k: nat, t: nat)
    requires OnGrid(offset, k, t)
    ensures OnGrid(offset + WORD, k + 1, if offset == SECTOR * t then t + 1 else t)
  {
  }

  lemma GridWord(offset: nat, k: nat, t: nat)
    requires OnGrid(offset, k, t)
    ensures offset == WORD * k
  {
  }

  lemma GridBounds(offset: nat, k: nat, t: nat)
    requires OnGrid(offset, k, t)
    ensures offset <= SECTOR * t < offset + SECTOR && (offset < SECTOR * t ==> offset + WORD <= SECTOR * t)
  {
  }

  lemma AlignedOnGrid(base: nat, offset: nat, k: nat, t: nat)
    requires AtSector(base) && OnGrid(offset, k, t)
    ensures AtWord(base + offset)
    ensures AtSector(base + offset) <==> offset == SECTOR * t
  {
    Alignment(base, offset, k, t);
  }

  lemma WholeWord(offset: nat, k: nat, size: nat)
    requires offset == WORD * k && offset < size && AtWord(size)
    ensures offset + WORD <= size
  {
  }

  // The first `done` bytes are copied, the sectors up to top are erased behind them, the rest is old.
  ghost predicate CopiedTo(now: seq<bv8>, m: seq<bv8>, from: nat, done: nat, top: nat) {
    && |now| == |m| && from + done <= |m|
    && (forall i | 0 <= i < done :: now[i] == m[from + i])
    && (forall i | done <= i < top && i < |m| :: now[i] == ERASED_BYTE)
    && (forall i | top <= i < |m| :: now[i] == m[i])
  }

  lemma WordReady(now: seq<bv8>, m: seq<bv8>, from: nat, done: nat, top: nat)
    requires CopiedTo(now, m, from, done, top)
    ensures |now| == |m|
    ensures done + WORD <= top ==> forall i | done <= i < done + WORD && i < |m| :: now[i] == ERASED_BYTE
  {
  }

  lemma CopyStep(now: seq<bv8>, after: seq<bv8>, m: seq<bv8>, from: nat, done: nat, top: nat, top': nat)
    requires CopiedTo(now, m, from, done, top) && done <= top < done + SECTOR && SECTOR <= from
    requires top' == (if done == top then done + SECTOR else top) && done + WORD <= top'
    requires |after| == |m| && from + done + WORD <= |m|
    requires forall i | done <= i < done + WORD :: after[i] == now[from + i]
    requires forall i | 0 <= i < |m| && !(done <= i < done + WORD) ::
               after[i] == if done == top && done <= i < done + SECTOR then ERASED_BYTE else now[i]
    ensures CopiedTo(after, m, from, done + WORD, top')
  {
  }

  // One turn of the first loop: k words moved, t sectors made ready.
  method CopyAt(flash: Flash, src: nat, offset: nat, ghost m: seq<bv8>, ghost k: nat, ghost t: nat)
      returns (ghost t': nat)
    requires flash.Valid() && FLASH_BASE + SECTOR <= src && AtSector(src)
             && src + offset + WORD <= FLASH_BASE + CAPACITY
    requires OnGrid(offset, k, t)
    requires CopiedTo(flash.mem[..], m, src - FLASH_BASE, offset, SECTOR * t)
    modifies flash.mem
    ensures t' == if offset == SECTOR * t then t + 1 else t
    ensures CopiedTo(flash.mem[..], m, src - FLASH_BASE, offset + WORD, SECTOR * t')
  {
    hide AtWord, AtSector, CopiedTo, OnGrid;
    ghost var now, top := flash.mem[..], SECTOR * t;
    BaseAligned();
    GridBounds(offset, k, t);
    AlignedOnGrid(FLASH_BASE, offset, k, t);
    AlignedOnGrid(src, offset, k, t);
    WordReady(now, m, src - FLASH_BASE, offset, top);
    assert forall o | offset <= o < offset + WORD :: flash.mem[o] == now[o];
    MoveWord(flash, FLASH_BASE + offset, src + offset);
    t' := if offset == top then t + 1 else t;
    CopyStep(now, flash.mem[..], m, src - FLASH_BASE, offset, top, SECTOR * t');
  }

  // First loop: copies the image; returns the end of the sectors made ready for it.
  method CopyImage(flash: Flash, src: nat, size: nat) returns (ghost top: nat)
    requires flash.Valid() && FLASH_BASE + SECTOR <= src && AtSector(src)
    requires src + size <= FLASH_BASE + CAPACITY && AtWord(size)
    modifies flash.mem
    ensures AtSector(top) && size <= top < size + SECTOR
    ensures CopiedTo(flash.mem[..], old(flash.mem[..]), src - FLASH_BASE, size, top)
  {
    hide AtWord, AtSector;
    var offset := 0;
    ghost var k, t, m := 0, 0, flash.mem[..];
    while offset < size
      invariant OnGrid(offset, k, t) && offset <= size
      invariant CopiedTo(flash.mem[..], m, src - FLASH_BASE, offset, SECTOR * t)
    {
      hide CopiedTo, OnGrid;
      GridWord(offset, k, t);
      WholeWord(offset, k, size);
      GridStep(offset, k, t);
      t := CopyAt(flash, src, offset, m, k, t);
      offset, k := offset + WORD, k + 1;
    }
    top := SECTOR * t;
    SectorMultiple(t);
  }

  // Everything from size to top is erased, all else is old.
  ghost predicate ErasedTo(now: seq<bv8>, m: seq<bv8>, size: nat, top: nat) {
    |now| == |m| && forall i | 0 <= i < |m| :: now[i] == if size <= i < top then ERASED_BYTE else m[i]
  }

  // One turn of the second loop.
  method EraseAt(flash: Flash, offset: nat, ghost m: seq<bv8>, ghost size: nat, ghost k: nat, ghost t: nat)
      returns (ghost t': nat)
    requires flash.Valid() && size <= offset < CAPACITY && OnGrid(offset, k, t)
    requires ErasedTo(flash.mem[..], m, size, SECTOR * t)
    modifies flash.mem
    ensures t' == if offset == SECTOR * t then t + 1 else t
    ensures ErasedTo(flash.mem[..], m, size, SECTOR * t')
  {
    hide AtWord, AtSector, OnGrid;
    BaseAligned();
    GridBounds(offset, k, t);
    AlignedOnGrid(FLASH_BASE, offset, k, t);
    flash.EraseIfDirty(FLASH_BASE + offset);
    t' := if offset == SECTOR * t then t + 1 else t;
  }

  // Second loop: the source is in flash too, so what is left of it is erased.
  method EraseRest(flash: Flash, size: nat, ghost top: nat)
    requires flash.Valid() && size <= CAPACITY && AtWord(size)
    requires AtSector(top) && size <= top < size + SECTOR
    requires forall i | size <= i < top :: i < FLASH_SIZE ==> flash.mem[i] == ERASED_BYTE
    modifies flash.mem
    ensures ErasedTo(flash.mem[..], old(flash.mem[..]), size, CAPACITY)
  {
    hide AtWord, AtSector;
    var offset := size;
    ghost var k, t, m := Words(size), Sectors(top), flash.mem[..];
    CapacityAligned();
    while offset < CAPACITY
      invariant OnGrid(offset, k, t) && size <= offset <= CAPACITY
      invariant ErasedTo(flash.mem[..], m, size, SECTOR * t)
    {
      hide ErasedTo, OnGrid;
      GridWord(offset, k, t);
      WholeWord(offset, k, CAPACITY);
      GridStep(offset, k, t);
      t := EraseAt(flash, offset, m, size, k, t);
      offset, k := offset + WORD, k + 1;
    }
    CapacityInSectors(t);
  }

  lemma CapacityAligned()
    ensures AtWord(CAPACITY)
  {
  }

  lemma CapacityInSectors(t: nat)
    requires SECTOR * t - SECTOR < CAPACITY <= SECTOR * t
    ensures SECTOR * t == CAPACITY
  {
  }

  /** Moves `size` bytes down to the start of the flash, erasing sectors on the way, and erases the
      rest up to the reserve.  Source and destination may overlap: the source lies a positive
      number of whole sectors higher, so an erased sector holds no word still to be read. */
  method FlashMove(flash: Flash, src: nat, size: nat)
    requires flash.Valid() && FLASH_BASE < src && AtSector(src)
    requires src + size <= FLASH_BASE + CAPACITY && AtWord(size)
    modifies flash.mem
    ensures flash.mem[..] == Moved(old(flash.mem[..]), src - FLASH_BASE, size)
  {
    ghost var top := CopyImage(flash, src, size);
    EraseRest(flash, size, top);
  }

  // The flash after a move: the image at the bottom, then erased flash, then the reserve as before.
  ghost function Moved(m: seq<bv8>, from: nat, size: nat): (m': seq<bv8>)
    requires |m| == FLASH_SIZE && from + size <= CAPACITY
    ensures |m'| == FLASH_SIZE
    ensures m'[..size] == m[from..from + size] && Erased(m', size, CAPACITY) && m'[CAPACITY..] == m[CAPACITY..]
  {
    m[from..from + size] + seq(CAPACITY - size, i => ERASED_BYTE) + m[CAPACITY..]
  }

  /** The word assembler in front of the flash; its static buffer is empty between calls. */
  class BlockWriter {
    const buf: array<bv8>
    var bufCount: nat
    var nextAddr: nat

    ghost predicate Valid()
      reads this
    {
      buf.Length == WORD && bufCount == 0
    }

    constructor ()
      ensures Valid() && fresh(buf)
    {
      buf := new bv8[WORD];
      bufCount, nextAddr := 0, 0;
    }

    /** Writes whole words; the code tells which check failed, in the source's order. */
    method WriteBlock(flash: Flash, addr: nat, data: array<bv8>, count: nat) returns (code: int)
      requires Valid() && flash.Valid() && count <= data.Length
      requires buf != flash.mem && buf != data && data != flash.mem
      requires InFlash(addr) ==> addr + count <= FLASH_BASE + FLASH_SIZE
      modifies this, buf, flash.mem
      ensures Valid()
      ensures code == if addr < 0x6000_0000 || 0x6080_0000 <= addr then 4
                      else if addr % 4 != 0 || count % 4 != 0 then 1 else 0
      ensures if code == 0 then ProgrammedOver(old(flash.mem[..]), flash.mem[..], addr - FLASH_BASE, data[..count])
              else flash.mem[..] == old(flash.mem[..])
      ensures nextAddr == if code == 0 then addr + count else old(nextAddr)
    {
      hide ProgrammedOver, AtWord;
      if !InFlash(addr) { return 4; }
      if addr % 4 != 0 || count % 4 != 0 { return 1; }
      if bufCount > 0 && addr != nextAddr { return 2; }
      nextAddr := addr + count;
      var dst, i := addr - bufCount, 0;
      ghost var m, at, source, words := flash.mem[..], addr - FLASH_BASE, data[..count], 0;
      NothingProgrammed(m, at, source);
      while i < count
        invariant i == WORD * words + bufCount <= count && bufCount < WORD && dst == addr + WORD * words
        invariant nextAddr == addr + count
        invariant forall k | 0 <= k < bufCount :: buf[k] == source[WORD * words + k]
        invariant ProgrammedOver(m, flash.mem[..], at, source[..WORD * words])
      {
        buf[bufCount] := data[i];
        bufCount, i := bufCount + 1, i + 1;
        if bufCount < WORD { continue; }
        WordAddress(addr, words);
        WordAssembled(buf, source, WORD * words);
        ghost var before := flash.mem[..];
        flash.WriteWord(dst, buf[..]);
        OneWordMore(m, before, flash.mem[..], at, source, WORD * words);
        words := words + 1;
        bufCount := 0;
        dst := dst + WORD;
      }
      WholeWords(count, words, bufCount);
      assert source[..count] == source;
      return 0;
    }
  }

  lemma NothingProgrammed(m: seq<bv8>, at: int, source: seq<bv8>)
    ensures ProgrammedOver(m, m, at, source[..0])
  {
  }

  lemma WordAddress(addr: nat, words: nat)
    requires addr % 4 == 0
    ensures AtWord(addr + WORD * words)
  {
  }

  lemma WordAssembled(buf: array<bv8>, source: seq<bv8>, done: nat)
    requires buf.Length == WORD && done + WORD <= |source|
    requires forall k | 0 <= k < WORD :: buf[k] == source[done + k]
    ensures buf[..] == source[done..done + WORD]
  {
  }

  lemma OneWordMore(m: seq<bv8>, before: seq<bv8>, after: seq<bv8>, at: int, source: seq<bv8>, done: nat)
    requires done + WORD <= |source| && ProgrammedOver(m, before, at, source[..done])
    requires ProgrammedOver(before, after, at + done, source[done..done + WORD])
    ensures ProgrammedOver(m, after, at, source[..done + WORD])
  {
  }

  lemma WholeWords(count: nat, words: nat, rest: nat)
    requires count % 4 == 0 && count == WORD * words + rest && rest < WORD
    ensures rest == 0
  {
  }
}
