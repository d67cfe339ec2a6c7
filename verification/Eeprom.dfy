/** Paged writes to the 25AA02 EEPROM. */
module Eeprom {
  import opened Sequences

  const SIZE: nat := 256
  const PAGE: nat := 16 // ADRESS_MASK + 1
  const MAX_ADDRESS: nat := 255
  const SIZE_T: nat := 0x1_0000_0000

  // Where byte k of a transfer lands: the address counter wraps inside the page.
  function Cell(addr: nat, k: nat): nat
    requires addr < SIZE
  {
    addr / PAGE * PAGE + (addr + k) % PAGE
  }

  /** Byte k lands behind byte 0 as long as it stays within the 16 bytes of the page, and starts over
      after 16 bytes. */
  lemma PageOfSixteen(addr: nat, k: nat)
    requires addr < 256
    ensures Cell(addr, k) < 256 && Cell(addr, k) / 16 == addr / 16 && Cell(addr, k + 16) == Cell(addr, k)
    ensures Cell(addr, k) == addr + k <==> addr % 16 + k < 16
  {
  }

  // The chip's response to one WRITE command.
  function PageWrite(m: seq<bv8>, addr: nat, data: seq<bv8>): (m': seq<bv8>)
    requires |m| == SIZE && addr < SIZE
    ensures |m'| == SIZE
  {
    if data == [] then m else
      var n := |data| - 1;
      PageWrite(m, addr, data[..n])[Cell(addr, n) := data[n]]
  }

  // A transfer that stays inside its page is an ordinary write.
  lemma {:induction false} InPage(m: seq<bv8>, addr: nat, data: seq<bv8>)
    requires |m| == SIZE && addr < SIZE && addr % PAGE + |data| <= PAGE
    ensures addr + |data| <= SIZE && PageWrite(m, addr, data) == Written(m, addr, data)
  {
    if data != [] {
      var n := |data| - 1;
      InPage(m, addr, data[..n]);
      assert Cell(addr, n) == addr + n;
    } else {
      assert Written(m, addr, data) == m;
    }
  }

  class Chip {
    const mem: array<bv8>
    var writeEnabled: bool
    var transfers: seq<(nat, nat)> // address and length of every WRITE so far

    ghost predicate Valid() { mem.Length == SIZE }

    constructor (image: seq<bv8>)
      requires |image| == SIZE
      ensures Valid() && mem[..] == image && fresh(mem) && !writeEnabled && transfers == []
    {
      mem := new bv8[SIZE](i requires 0 <= i < SIZE => image[i]);
      writeEnabled, transfers := false, [];
    }

    method SetWriteEnable()
      modifies this`writeEnabled
      ensures writeEnabled
    {
      writeEnabled := true;
    }

    // The WRITE command; the address is one byte on the wire.  The latch is needed and dropped.
    method Transfer(address: nat, data: seq<bv8>)
      requires Valid()
      modifies this, mem
      ensures mem[..] == if old(writeEnabled) then PageWrite(old(mem[..]), address % SIZE, data) else old(mem[..])
      ensures !writeEnabled && transfers == old(transfers) + [(address % SIZE, |data|)]
    {
      var addr := address % SIZE;
      transfers := transfers + [(addr, |data|)];
      if writeEnabled {
        var k := 0;
        while k < |data|
          invariant 0 <= k <= |data|
          invariant mem[..] == PageWrite(old(mem[..]), addr, data[..k])
          invariant transfers == old(transfers) + [(addr, |data|)]
        {
          assert data[..k + 1][..k] == data[..k];
          mem[Cell(addr, k)] := data[k];
          k := k + 1;
        }
        assert data[..k] == data;
      }
      writeEnabled := false;
    }
  }

  ghost predicate NoneCrossesPage(transfers: seq<(nat, nat)>, from: nat) {
    forall i | from <= i < |transfers| :: transfers[i].0 % 16 + transfers[i].1 <= 16
  }

  function Min(a: nat, b: nat): nat { if a < b then a else b }

  function LastOfPage(address: nat): nat { address / PAGE * PAGE + (PAGE - 1) } // address | ADRESS_MASK

  lemma PageCut(start: nat, last: nat)
    requires start <= last + 1
    ensures var end := Min(last, LastOfPage(start));
            && start <= end + 1 && (start <= last ==> start <= end)
            && start % PAGE + (end + 1 - start) <= PAGE
            && (end < last ==> (end + 1) % PAGE == 0)
  {
  }

  lemma InPageTransfer(m: seq<bv8>, address: nat, buffer: seq<bv8>, n: nat, count: nat)
    requires |m| == SIZE && address + |buffer| <= SIZE && n + count <= |buffer|
    requires (address + n) % PAGE + count <= PAGE
    ensures PageWrite(Written(m, address, buffer[..n]), (address + n) % SIZE, buffer[n..n + count]) ==
            Written(m, address, buffer[..n + count])
  {
    hide Written, PageWrite;
    assert buffer[..n + count] == buffer[..n] + buffer[n..n + count];
    PieceInPage(m, address, buffer[..n], buffer[n..n + count], address + n);
  }

  lemma PieceInPage(m: seq<bv8>, address: nat, done: seq<bv8>, piece: seq<bv8>, at: nat)
    requires |m| == SIZE && at == address + |done| && at + |piece| <= SIZE && at % PAGE + |piece| <= PAGE
    ensures PageWrite(Written(m, address, done), at % SIZE, piece) == Written(m, address, done + piece)
  {
    hide Written, PageWrite;
    if piece == [] {
      assert done + piece == done;
      NoBytes(Written(m, address, done), at % SIZE);
    } else {
      InPage(Written(m, address, done), at, piece);
      WrittenTwice(m, address, done, piece);
    }
  }

  lemma NoBytes(m: seq<bv8>, addr: nat)
    requires |m| == SIZE && addr < SIZE
    ensures PageWrite(m, addr, []) == m
  {
  }

  lemma WrittenTwice(m: seq<bv8>, address: nat, a: seq<bv8>, b: seq<bv8>)
    requires address + |a| + |b| <= |m|
    ensures Written(Written(m, address, a), address + |a|, b) == Written(m, address, a + b)
  {
  }

  lemma NothingWritten(m: seq<bv8>, address: nat, buffer: seq<bv8>)
    requires address + |buffer| <= |m|
    ensures Written(m, address, buffer[..0]) == m
  {
  }

  lemma OneMoreTransfer(transfers: seq<(nat, nat)>, from: nat, start: nat, count: nat)
    requires from <= |transfers| && NoneCrossesPage(transfers, from) && start % PAGE + count <= PAGE
    ensures var more := transfers + [(start % SIZE, count)];
            NoneCrossesPage(more, from) && (SendsBytes(more, from) <==> SendsBytes(transfers, from) || count > 0)
  {
    var more := transfers + [(start % SIZE, count)];
    assert more[|transfers|] == (start % SIZE, count) && forall i | 0 <= i < |transfers| :: more[i] == transfers[i];
    assert start % SIZE % PAGE == start % PAGE;
  }

  // The address check, in size_t arithmetic.
  predicate Accepted(address: nat, length: nat) { (address + length + 0xFFFF_FFFF) % 0x1_0000_0000 <= 255 }

  // The end of the range lies past the last address of all.
  predicate Wraps(address: nat, length: nat) { address + length > 0x1_0000_0000 }

  ghost predicate SendsBytes(transfers: seq<(nat, nat)>, from: nat) {
    exists i :: from <= i < |transfers| && transfers[i].1 > 0
  }

  /** Writes a buffer page by page.  `ready` are the outcomes of the waits for the chip; waits past
      its end succeed.  Of a range on the chip, `done` bytes get there: all of them unless a wait
      times out, and then the pages before it.  A range that wraps onto the chip passes the check and
      is sent in one go, over itself, to a single page. */
  method Write(chip: Chip, address: nat, length: nat, buffer: seq<bv8>, ready: seq<bool>)
    returns (result: nat, ghost done: nat)
    requires chip.Valid() && length == |buffer| < SIZE_T && address < SIZE_T
    modifies chip, chip.mem
    ensures !Accepted(address, length) || length == 0 ==>
              result == done == 0 && chip.mem[..] == old(chip.mem[..])
    ensures 0 < length && address + length <= SIZE ==>
              && done <= length && chip.mem[..] == Written(old(chip.mem[..]), address, buffer[..done])
              && (done == length || (address + done) % 16 == 0)
              && (result == 0 || result == length == done)
              && (var waits := |chip.transfers| - |old(chip.transfers)|;
                  && waits > 0 && (forall k | 0 <= k < waits - 1 && k < |ready| :: ready[k])
                  && (result == length <==> waits - 1 < |ready| ==> ready[waits - 1]))
    ensures Wraps(address, length) && Accepted(address, length) ==>
              && chip.mem[..] == PageWrite(old(chip.mem[..]), address % SIZE, buffer)
              && chip.transfers == old(chip.transfers) + [(address % SIZE, length)]
              && result == if ready != [] && !ready[0] then 0 else length
    ensures |chip.transfers| >= |old(chip.transfers)|
    ensures NoneCrossesPage(chip.transfers, |old(chip.transfers)|) <==>
            !(Wraps(address, length) && Accepted(address, length))
    ensures SendsBytes(chip.transfers, |old(chip.transfers)|) <==> length > 0 && Accepted(address, length)
    ensures chip.writeEnabled == !Accepted(address, length)
  {
    hide NoneCrossesPage, SendsBytes, LastOfPage, Written, PageWrite;
    done := 0;
    NoTransferYet(chip.transfers);
    chip.SetWriteEnable();
    var lastByte := (address + length + SIZE_T - 1) % SIZE_T;
    LastByte(address, length);
    if lastByte > MAX_ADDRESS { return 0, 0; }
    if Wraps(address, length) {
      result, done := WriteWrapping(chip, address, lastByte, buffer, ready);
      return;
    }
    ghost var m, t0 := chip.mem[..], |chip.transfers|;
    NothingWritten(m, address, buffer);
    var pageStart, waits := address, 0;
    PageCut(pageStart, lastByte);
    var pageEnd := Min(lastByte, LastOfPage(pageStart));
    while true
      invariant pageStart == address + done && done <= length
      invariant pageStart <= pageEnd + 1 <= lastByte + 1 == address + length && (0 < length ==> pageStart <= pageEnd)
      invariant pageStart % PAGE + (pageEnd + 1 - pageStart) <= PAGE
      invariant pageEnd < lastByte ==> (pageEnd + 1) % PAGE == 0
      invariant chip.mem[..] == Written(m, address, buffer[..done])
      invariant |chip.transfers| >= t0 && NoneCrossesPage(chip.transfers, t0)
                && (SendsBytes(chip.transfers, t0) <==> done > 0)
      invariant waits == |chip.transfers| - t0 && forall k | 0 <= k < waits && k < |ready| :: ready[k]
      decreases length - done
    {
      var count := pageEnd + 1 - pageStart;
      SendPage(chip, m, t0, address, buffer, pageStart, count);
      done := done + count;
      pageStart := pageEnd + 1;
      if pageStart > lastByte { break; }
      PageCut(pageStart, lastByte);
      pageEnd := Min(lastByte, LastOfPage(pageStart));
      var ok := waits >= |ready| || ready[waits];
      waits := waits + 1;
      if !ok { return 0, done; }
    }
    if waits < |ready| && !ready[waits] { return 0, done; }
    return length, done;
  }

  // One turn of the loop for a range on the chip.
  method SendPage(chip: Chip, ghost m: seq<bv8>, ghost t0: nat, address: nat, buffer: seq<bv8>, pageStart: nat,
                  count: nat)
    requires chip.Valid() && |m| == SIZE && address <= pageStart && pageStart + count <= address + |buffer| <= SIZE
    requires pageStart % PAGE + count <= PAGE && chip.mem[..] == Written(m, address, buffer[..pageStart - address])
    requires t0 <= |chip.transfers| && NoneCrossesPage(chip.transfers, t0)
    modifies chip, chip.mem
    ensures chip.mem[..] == Written(m, address, buffer[..pageStart - address + count])
    ensures |chip.transfers| == |old(chip.transfers)| + 1 && NoneCrossesPage(chip.transfers, t0)
    ensures SendsBytes(chip.transfers, t0) <==> old(SendsBytes(chip.transfers, t0)) || count > 0
    ensures !chip.writeEnabled
  {
    hide NoneCrossesPage, SendsBytes, Written, PageWrite;
    OneMoreTransfer(chip.transfers, t0, pageStart, count);
    InPageTransfer(m, address, buffer, pageStart - address, count);
    chip.SetWriteEnable();
    chip.Transfer(pageStart, buffer[pageStart - address..pageStart - address + count]);
  }

  // The same loop when the last byte's address has wrapped: the page end lies below the page start,
  // the count wraps back to the whole length, and the first turn is the last.
  method WriteWrapping(chip: Chip, address: nat, lastByte: nat, buffer: seq<bv8>, ready: seq<bool>)
    returns (result: nat, ghost done: nat)
    requires chip.Valid() && |buffer| < SIZE_T && address < SIZE_T && Wraps(address, |buffer|)
    requires lastByte == address + |buffer| - 1 - SIZE_T && lastByte <= MAX_ADDRESS
    modifies chip, chip.mem
    ensures chip.mem[..] == PageWrite(old(chip.mem[..]), address % SIZE, buffer) && done == |buffer|
    ensures chip.transfers == old(chip.transfers) + [(address % SIZE, |buffer|)]
    ensures result == if ready != [] && !ready[0] then 0 else |buffer|
    ensures !NoneCrossesPage(chip.transfers, |old(chip.transfers)|)
    ensures SendsBytes(chip.transfers, |old(chip.transfers)|) && !chip.writeEnabled
  {
    hide PageWrite;
    WrapsPage(address, |buffer|);
    var pageStart := address;
    var pageEnd := Min(lastByte, LastOfPage(pageStart));
    var count := (pageEnd + 1 + SIZE_T - pageStart) % SIZE_T;
    assert buffer[..count] == buffer;
    chip.SetWriteEnable();
    chip.Transfer(pageStart, buffer[..count]);
    done := count;
    assert chip.transfers[|chip.transfers| - 1] == (address % SIZE, |buffer|);
    if ready != [] && !ready[0] { return 0, done; }
    return |buffer|, done;
  }

  // A range that ends past 2^32 crosses a page boundary there.
  lemma WrapsPage(address: nat, length: nat)
    requires address < SIZE_T && Wraps(address, length)
    ensures address % SIZE % PAGE + length > PAGE
  {
    SamePageOffset(address);
    var q := address / PAGE;
    assert address == PAGE * q + address % PAGE && q + 1 <= SIZE_T / PAGE;
  }

  lemma SamePageOffset(address: nat)
    ensures address % SIZE % PAGE == address % PAGE
  {
  }

  /** From 0xFFFFFFF0 on, 32 bytes pass the check and all land in the chip's last page, the second
      half over the first. */
  lemma WrappingExample(m: seq<bv8>, buffer: seq<bv8>)
    requires |m| == SIZE && |buffer| == 0x20
    ensures Accepted(0xFFFF_FFF0, 0x20) && Wraps(0xFFFF_FFF0, 0x20)
    ensures PageWrite(m, 0xFFFF_FFF0 % SIZE, buffer) == m[..0xF0] + buffer[0x10..]
  {
    forall i | 0 <= i < SIZE ensures PageWrite(m, 0xF0, buffer)[i] == (m[..0xF0] + buffer[0x10..])[i] {
      TwoLaps(m, 0xF0, buffer, i);
    }
  }

  lemma CellOfLap(addr: nat, n: nat)
    requires addr < SIZE && addr % PAGE == 0 && n < 2 * PAGE
    ensures Cell(addr, n) == addr + (if n < PAGE then n else n - PAGE)
  {
  }

  // Byte i after at most two laps over the page at addr.
  function Lapped(m: seq<bv8>, addr: nat, data: seq<bv8>, i: nat): bv8
    requires i < |m|
  {
    if addr <= i < addr + PAGE && i - addr + PAGE < |data| then data[i - addr + PAGE]
    else if addr <= i < addr + PAGE && i - addr < |data| then data[i - addr]
    else m[i]
  }

  lemma {:induction false} TwoLaps(m: seq<bv8>, addr: nat, data: seq<bv8>, i: nat)
    requires |m| == SIZE && addr < SIZE && addr % PAGE == 0 && |data| <= 2 * PAGE && i < SIZE
    ensures PageWrite(m, addr, data)[i] == Lapped(m, addr, data, i)
  {
    if data != [] {
      var n := |data| - 1;
      TwoLaps(m, addr, data[..n], i);
      CellOfLap(addr, n);
    }
  }

  lemma NoTransferYet(transfers: seq<(nat, nat)>)
    ensures NoneCrossesPage(transfers, |transfers|) && !SendsBytes(transfers, |transfers|)
  {
  }

  lemma LastByte(address: nat, length: nat)
    requires address < SIZE_T && length < SIZE_T
    ensures var last := (address + length + SIZE_T - 1) % SIZE_T;
            last == if address + length == 0 then SIZE_T - 1
                    else if Wraps(address, length) then address + length - 1 - SIZE_T
                    else address + length - 1
  {
  }
}
