/** The run data message: a text template prepared once per run, filled and sent for every block of
    sampled vectors. */
module RunDataMessage {
  import opened Sequences
  import opened Options

  const HALF_BUFFER: nat := 128 // words per block
  const MESSAGE_START: string :=
    "{ \"type\": \"run_data\", \"msg\": { \"id\": \"" + "xxxxxxxx-xxxx-xxxx-xxxx-xxxxxxxxxxxx"
    + "\", \"entity\": [\"" + "XX-XX-XX-XX-XX-XX" + "\", \"0\"], \"data\": ["
  const MESSAGE_END: string := "]}}"
  const LENGTH_STATIC: nat := 124
  const IDX_RUN_ID: nat := 38
  const LENGTH_RUN_ID: nat := 36
  const IDX_ENTITY_ID: nat := 89
  const LENGTH_ENTITY_ID: nat := 17
  const BUFFER_LENGTH: nat := LENGTH_STATIC + HALF_BUFFER * 9 + 4

  // ---------------------------------------------------------------- the text asked for

  // A value is six characters, such as -0.125.
  type Cell = s: string | |s| == 6 witness "+0.000"

  function Joined(parts: seq<string>): string {
    if parts == [] then ""
    else if |parts| == 1 then parts[0]
    else Joined(parts[..|parts| - 1]) + "," + parts[|parts| - 1]
  }

  // The start of the message with both ids put in.
  function Patched(start: string, runId: string, entityId: string): string
    requires |start| == LENGTH_STATIC
  {
    start[..IDX_RUN_ID] + runId + start[IDX_RUN_ID + LENGTH_RUN_ID..IDX_ENTITY_ID]
    + entityId + start[IDX_ENTITY_ID + LENGTH_ENTITY_ID..]
  }

  function Header(runId: string, entityId: string): string {
    assert |MESSAGE_START| == LENGTH_STATIC;
    Patched(MESSAGE_START, runId, entityId)
  }

  /** The header as text: both ids stand between their own quotes. */
  lemma HeaderReads(runId: string, entityId: string)
    requires |runId| == 36 && |entityId| == 17
    ensures Header(runId, entityId) ==
            "{ \"type\": \"run_data\", \"msg\": { \"id\": \"" + runId + "\", \"entity\": [\"" + entityId
            + "\", \"0\"], \"data\": ["
  {
    var start := "{ \"type\": \"run_data\", \"msg\": { \"id\": \"";
    var entity, end := "\", \"entity\": [\"", "\", \"0\"], \"data\": [";
    assert |start| == 38 && |entity| == 15 && |end| == 18;
    assert MESSAGE_START[..38] == start && MESSAGE_START[74..89] == entity && MESSAGE_START[106..] == end;
  }

  function RowText(cells: seq<Cell>): string { "[" + Joined(cells) + "]" }

  function RowTexts(rows: seq<seq<Cell>>): (t: seq<string>)
    ensures |t| == |rows|
  {
    seq(|rows|, i requires 0 <= i < |rows| => RowText(rows[i]))
  }

  function MessageOf(header: string, rows: seq<seq<Cell>>): string {
    header + Joined(RowTexts(rows)) + MESSAGE_END + "\n"
  }

  lemma JoinedTwo(a: string, b: string)
    ensures Joined([a, b]) == a + "," + b
  {
    assert [a, b][..1] == [a];
  }

  // The sampled words, row by row, as six characters each.
  function Cells(data: seq<bv32>, rows: nat, c: nat, repr: bv32 -> Cell): (cells: seq<seq<Cell>>)
    requires |data| >= rows * c
    ensures |cells| == rows && forall i | 0 <= i < rows :: |cells[i]| == c
  {
    seq(rows, i requires 0 <= i < rows =>
      seq(c, k requires 0 <= k < c => (InData(i, k, rows, c); repr(data[i * c + k]))))
  }

  lemma InData(i: nat, k: nat, rows: nat, c: nat)
    requires i < rows && k < c
    ensures i * c + k < rows * c
  {
    assert (i + 1) * c <= rows * c;
  }

  /** A block of two rows of two words, as text: row by row, values in the order of the words. */
  lemma TwoRowsRead(header: string, data: seq<bv32>, repr: bv32 -> Cell)
    requires |data| == 4
    ensures MessageOf(header, Cells(data, 2, 2, repr)) ==
            header + "[" + repr(data[0]) + "," + repr(data[1]) + "],[" + repr(data[2]) + "," + repr(data[3]) + "]]}}\n"
  {
    var a, b, c, d := repr(data[0]), repr(data[1]), repr(data[2]), repr(data[3]);
    JoinedTwo(a, b);
    JoinedTwo(c, d);
    JoinedTwo(RowText([a, b]), RowText([c, d]));
    assert Cells(data, 2, 2, repr)[0] == [a, b] && Cells(data, 2, 2, repr)[1] == [c, d];
    assert Cells(data, 2, 2, repr) == [[a, b], [c, d]];
    assert RowTexts([[a, b], [c, d]]) == [RowText([a, b]), RowText([c, d])];
  }

  // ---------------------------------------------------------------- positions

  function InnerLength(c: nat): nat { 3 + c * 7 - 1 }

  function RowStart(i: nat, c: nat): nat { LENGTH_STATIC + i * InnerLength(c) }

  function TotalLength(i: nat, c: nat): nat { LENGTH_STATIC + i * InnerLength(c) - 1 + 4 - 1 + 1 }

  lemma RowStep(i: nat, c: nat)
    ensures RowStart(0, c) == LENGTH_STATIC && RowStart(i + 1, c) == RowStart(i, c) + 7 * c + 2
    ensures TotalLength(i, c) == RowStart(i, c) + 3
    ensures RowStart(i, c) == LENGTH_STATIC + i * InnerLength(c) >= LENGTH_STATIC
  {
  }

  lemma RowOrder(i: nat, j: nat, c: nat)
    requires i < j
    ensures RowStart(i, c) + 7 * c + 2 <= RowStart(j, c)
  {
    assert (i + 1) * InnerLength(c) <= j * InnerLength(c);
  }

  lemma RowsFit(rows: nat, c: nat)
    requires rows * c <= HALF_BUFFER && c > 0
    ensures TotalLength(rows, c) <= BUFFER_LENGTH && RowStart(rows, c) + 3 <= BUFFER_LENGTH
  {
    assert rows <= rows * c;
    assert rows * InnerLength(c) == 7 * (rows * c) + 2 * rows;
  }

  // ---------------------------------------------------------------- the template

  predicate RowFramed(buf: string, p: nat, c: nat)
    requires p + 7 * c < |buf|
  {
    buf[p] == '[' && buf[p + 7 * c] == ']' && forall k | 1 <= k < c :: buf[p + 7 * k] == ','
  }

  // All brackets and commas of the rows, the end of the message, and the header before them.
  ghost predicate Framed(buf: string, header: string, rows: nat, c: nat) {
    && rows > 0 && c > 0 && |header| == LENGTH_STATIC && RowStart(rows, c) + 3 <= |buf|
    && buf[..LENGTH_STATIC] == header
    && (forall i | 0 <= i < rows :: RowStart(i, c) + 7 * c < |buf| && RowFramed(buf, RowStart(i, c), c))
    && (forall i | 1 <= i < rows :: LENGTH_STATIC < RowStart(i, c) <= |buf| && buf[RowStart(i, c) - 1] == ',')
    && buf[RowStart(rows, c) - 1..RowStart(rows, c) + 3] == MESSAGE_END + "\n"
  }

  ghost predicate RowFilled(buf: string, p: nat, cells: seq<Cell>)
    requires p + 7 * |cells| < |buf|
  {
    forall k | 0 <= k < |cells| :: buf[p + 1 + 7 * k..p + 7 + 7 * k] == cells[k]
  }

  lemma {:induction false} CellsRead(buf: string, p: nat, cells: seq<Cell>, k: nat)
    requires 1 <= k <= |cells| && p + 7 * |cells| < |buf|
    requires RowFramed(buf, p, |cells|) && RowFilled(buf, p, cells)
    ensures buf[p + 1..p + 7 * k] == Joined(cells[..k])
  {
    if k > 1 {
      CellsRead(buf, p, cells, k - 1);
      assert cells[..k][..k - 1] == cells[..k - 1];
      var q := p + 7 * (k - 1);
      assert buf[q + 1..q + 7] == cells[k - 1];
      assert buf[p + 1..q + 7] == buf[p + 1..q] + [buf[q]] + buf[q + 1..q + 7];
    } else {
      assert cells[..1] == [cells[0]];
    }
  }

  lemma RowReads(buf: string, p: nat, cells: seq<Cell>)
    requires cells != [] && p + 7 * |cells| < |buf| && RowFramed(buf, p, |cells|) && RowFilled(buf, p, cells)
    ensures buf[p..p + 7 * |cells| + 1] == RowText(cells)
  {
    CellsRead(buf, p, cells, |cells|);
    assert cells[..|cells|] == cells;
    var q := p + 7 * |cells|;
    assert buf[p..q + 1] == [buf[p]] + buf[p + 1..q] + [buf[q]];
  }

  // Every cell of the first rows holds its value.
  ghost predicate Filled(buf: string, rows: seq<seq<Cell>>, c: nat) {
    forall i | 0 <= i < |rows| ::
      |rows[i]| == c && RowStart(i, c) + 7 * c < |buf| && RowFilled(buf, RowStart(i, c), rows[i])
  }

  lemma {:induction false} RowsRead(buf: string, header: string, rows: seq<seq<Cell>>, c: nat, i: nat)
    requires Framed(buf, header, |rows|, c) && Filled(buf, rows, c) && 1 <= i <= |rows|
    ensures LENGTH_STATIC < RowStart(i, c) <= |buf|
    ensures buf[LENGTH_STATIC..RowStart(i, c) - 1] == Joined(RowTexts(rows[..i]))
  {
    hide RowStart, RowFramed, RowFilled, RowText;
    RowStep(i - 1, c);
    RowReads(buf, RowStart(i - 1, c), rows[i - 1]);
    if i > 1 {
      RowsRead(buf, header, rows, c, i - 1);
      assert RowTexts(rows[..i])[..i - 1] == RowTexts(rows[..i - 1]);
      var p := RowStart(i - 1, c);
      assert buf[LENGTH_STATIC..p + 7 * c + 1] == buf[LENGTH_STATIC..p - 1] + [buf[p - 1]] + buf[p..p + 7 * c + 1];
    } else {
      assert RowTexts(rows[..1]) == [RowText(rows[0])];
    }
  }

  /** A framed and filled buffer reads as the message. */
  lemma BufferReads(buf: string, header: string, rows: seq<seq<Cell>>, c: nat)
    requires Framed(buf, header, |rows|, c) && Filled(buf, rows, c)
    ensures TotalLength(|rows|, c) <= |buf|
    ensures buf[..TotalLength(|rows|, c)] == MessageOf(header, rows)
  {
    hide RowStart, TotalLength, RowTexts, Filled;
    var n := |rows|;
    RowStep(n, c);
    RowsRead(buf, header, rows, c, n);
    assert rows[..n] == rows;
    var e := RowStart(n, c);
    assert buf[..e + 3] == buf[..LENGTH_STATIC] + buf[LENGTH_STATIC..e - 1] + buf[e - 1..e + 3];
  }

  // Copying the start and then the two ids over it gives the header.
  lemma HeaderSpliced(buf: string, start: string, runId: string, entityId: string, dashes: string)
    requires |start| == LENGTH_STATIC <= LENGTH_STATIC + |dashes| <= |buf|
    requires |runId| == LENGTH_RUN_ID && |entityId| == LENGTH_ENTITY_ID
    ensures var b := Written(Written(buf, 0, start), IDX_ENTITY_ID, entityId);
            Written(Written(b, LENGTH_STATIC, dashes), IDX_RUN_ID, runId)[..LENGTH_STATIC] ==
            Patched(start, runId, entityId)
  {
    hide Written;
    var b1 := Written(buf, 0, start);
    var b2 := Written(b1, IDX_ENTITY_ID, entityId);
    var b3 := Written(b2, LENGTH_STATIC, dashes);
    var b4 := Written(b3, IDX_RUN_ID, runId);
    forall i | 0 <= i < LENGTH_STATIC ensures b4[i] == Patched(start, runId, entityId)[i] {
      SplicedAt(buf, 0, start, i);
      SplicedAt(b1, IDX_ENTITY_ID, entityId, i);
      SplicedAt(b2, LENGTH_STATIC, dashes, i);
      SplicedAt(b3, IDX_RUN_ID, runId, i);
    }
  }

  lemma SplicedAt(buf: string, at: nat, s: string, i: nat)
    requires at + |s| <= |buf| && i < |buf|
    ensures Written(buf, at, s)[i] == if at <= i < at + |s| then s[i - at] else buf[i]
  {
  }

  method CopyInto(a: array<char>, at: nat, s: string)
    requires at + |s| <= a.Length
    modifies a
    ensures a[..] == Written(old(a[..]), at, s)
  {
    forall i | 0 <= i < |s| { a[at + i] := s[i]; }
  }

  class Handler {
    const strBuffer: array<char>
    var actualBufferLength: nat
    ghost var header: string
    ghost var rows: nat
    ghost var channels: nat

    // Prepared, and possibly shortened since.
    ghost predicate Prepared()
      reads this, strBuffer
    {
      && strBuffer.Length == BUFFER_LENGTH && Framed(strBuffer[..], header, rows, channels)
      && rows * channels <= HALF_BUFFER && actualBufferLength == TotalLength(rows, channels)
    }

    constructor ()
      ensures strBuffer.Length == BUFFER_LENGTH && fresh(strBuffer)
    {
      strBuffer := new char[BUFFER_LENGTH](_ => '\0');
      actualBufferLength, header, rows, channels := BUFFER_LENGTH, "", 0, 0;
    }

    /** Lays out header, brackets and commas for rows of half a ring buffer. */
    method Prepare(runId: string, entityId: string, innerCount: nat)
      requires strBuffer.Length == BUFFER_LENGTH && 0 < innerCount <= HALF_BUFFER
      requires |runId| == LENGTH_RUN_ID && |entityId| == LENGTH_ENTITY_ID
      modifies this, strBuffer
      ensures Prepared() && header == Header(runId, entityId)
      ensures channels == innerCount && rows == 2 * HALF_BUFFER / innerCount / 2
      ensures rows * innerCount <= 128 < rows * innerCount + innerCount
    {
      hide RowStart, Framed, RowsFramed, TotalLength, Header, Written;
      var outerCount := 2 * HALF_BUFFER / innerCount / 2;
      RowCount(innerCount);
      RowsFit(outerCount, innerCount);
      RowStep(outerCount, innerCount);
      WriteStart(runId, entityId, outerCount, innerCount);
      header, rows, channels := Header(runId, entityId), outerCount, innerCount;
      var buffer := LENGTH_STATIC - 1;
      RowStep(0, innerCount);
      for outerI := 0 to outerCount
        invariant buffer == RowStart(outerI, innerCount) - 1
        invariant actualBufferLength == TotalLength(outerCount, innerCount)
        invariant header == Header(runId, entityId) && rows == outerCount && channels == innerCount
        invariant RowsFramed(strBuffer[..], header, outerI, innerCount)
      {
        RowOrder(outerI, outerCount, innerCount);
        RowStep(outerI, innerCount);
        buffer := FrameRow(outerI, innerCount, buffer);
      }
      FrameDone(strBuffer[..], header, outerCount, innerCount);
      CopyInto(strBuffer, buffer, MESSAGE_END);
      CopyInto(strBuffer, actualBufferLength - 1, "\n");
    }

    // Start of the message with both ids, and dashes for the rows.
    method WriteStart(runId: string, entityId: string, outerCount: nat, innerCount: nat)
      requires strBuffer.Length == BUFFER_LENGTH && RowStart(outerCount, innerCount) + 3 <= BUFFER_LENGTH
      requires |runId| == LENGTH_RUN_ID && |entityId| == LENGTH_ENTITY_ID
      modifies this`actualBufferLength, strBuffer
      ensures actualBufferLength == TotalLength(outerCount, innerCount)
      ensures RowsFramed(strBuffer[..], Header(runId, entityId), 0, innerCount)
    {
      hide Written, Patched;
      RowStep(outerCount, innerCount);
      CopyInto(strBuffer, 0, MESSAGE_START);
      CopyInto(strBuffer, IDX_ENTITY_ID, entityId);
      actualBufferLength := TotalLength(outerCount, innerCount);
      ghost var dashes := seq(actualBufferLength - LENGTH_STATIC, _ => '-');
      CopyInto(strBuffer, LENGTH_STATIC, seq(actualBufferLength - LENGTH_STATIC, _ => '-'));
      CopyInto(strBuffer, IDX_RUN_ID, runId);
      HeaderSpliced(old(strBuffer[..]), MESSAGE_START, runId, entityId, dashes);
    }

    // One turn of the outer loop: the row's brackets and commas, and the comma behind it.
    method FrameRow(outerI: nat, innerCount: nat, at: nat) returns (buffer: nat)
      requires innerCount > 0 && at + 1 == RowStart(outerI, innerCount)
      requires RowStart(outerI + 1, innerCount) <= strBuffer.Length
      requires RowsFramed(strBuffer[..], header, outerI, innerCount)
      modifies strBuffer
      ensures RowsFramed(strBuffer[..], header, outerI + 1, innerCount)
      ensures buffer == RowStart(outerI + 1, innerCount) - 1
    {
      hide RowStart, RowsFramed;
      ghost var was := strBuffer[..];
      RowStep(outerI, innerCount);
      buffer := at + 1;
      strBuffer[buffer] := '[';
      for innerI := 0 to innerCount
        invariant buffer == at + 1 + 7 * innerI && strBuffer[at + 1] == '['
        invariant forall k | 1 <= k <= innerI :: strBuffer[at + 1 + 7 * k] == ','
        invariant forall q | 0 <= q <= at :: strBuffer[q] == was[q]
      {
        buffer := buffer + 7;
        strBuffer[buffer] := ',';
      }
      strBuffer[buffer] := ']';
      buffer := buffer + 1;
      strBuffer[buffer] := ',';
      OneRowMore(was, strBuffer[..], header, outerI, innerCount);
    }

    /** Moves the end of the message up behind fewer rows. */
    method Shorten(outerCount: nat, innerCount: nat)
      requires Prepared() && innerCount == channels && 0 < outerCount < rows
      modifies this`actualBufferLength, this`rows, strBuffer
      ensures Prepared() && rows == outerCount
    {
      hide RowStart, Framed, Written, TotalLength;
      ghost var was := strBuffer[..];
      var newBufferLength := TotalLength(outerCount, innerCount);
      var newEndOfData := RowStart(outerCount, innerCount);
      RowStep(rows, channels);
      RowStep(outerCount, innerCount);
      RowOrder(outerCount, rows, channels);
      FramedLength(was, header, rows, channels);
      CopyInto(strBuffer, newEndOfData, seq(actualBufferLength - newBufferLength, _ => '\0'));
      CopyInto(strBuffer, newEndOfData - 1, MESSAGE_END);
      CopyInto(strBuffer, newEndOfData + 4 - 2, "\n");
      FewerRows(was, header, rows, outerCount, channels, seq(actualBufferLength - newBufferLength, _ => '\0'));
      actualBufferLength := newBufferLength;
      FewerWords(outerCount, rows, channels);
      rows := outerCount;
    }

    /** Fills a block of rows in and sends the message.  A block with more rows than are laid out is
        not sent. */
    method Handle(data: seq<bv32>, outerCount: nat, innerCount: nat, repr: bv32 -> Cell) returns (sent: Option<string>)
      requires Prepared() && innerCount == channels && outerCount > 0 && |data| >= outerCount * innerCount
      modifies this`actualBufferLength, this`rows, strBuffer
      ensures Prepared() && rows == if outerCount < old(rows) then outerCount else old(rows)
      ensures sent == if outerCount <= old(rows)
                      then Some(MessageOf(header, Cells(data, outerCount, innerCount, repr))) else None
    {
      hide RowStart, Framed, Filled, Cells, TotalLength, RowTexts;
      var newBufferLength := TotalLength(outerCount, innerCount);
      LengthOrder(outerCount, rows, channels);
      if newBufferLength < actualBufferLength {
        Shorten(outerCount, innerCount);
      } else if newBufferLength > actualBufferLength {
        return None;
      }
      FillIn(data, outerCount, innerCount, repr);
      BufferReads(strBuffer[..], header, Cells(data, outerCount, innerCount, repr), innerCount);
      return Some(strBuffer[..actualBufferLength]);
    }

    /** The value loop of `handle`. */
    method FillIn(data: seq<bv32>, outerCount: nat, innerCount: nat, repr: bv32 -> Cell)
      requires Prepared() && innerCount == channels && outerCount == rows
      requires |data| >= outerCount * innerCount
      modifies strBuffer
      ensures Prepared() && Filled(strBuffer[..], Cells(data, outerCount, innerCount, repr), innerCount)
    {
      hide RowStart, Framed, Written, TotalLength, FilledTo, Cells, Filled;
      ghost var cells := Cells(data, outerCount, innerCount, repr);
      NothingFilled(strBuffer[..], cells, channels);
      for outerI := 0 to outerCount
        invariant Framed(strBuffer[..], header, rows, channels)
        invariant FilledTo(strBuffer[..], cells, innerCount, outerI, 0)
      {
        FillRow(data, outerI, innerCount, repr, cells);
      }
      AllFilled(strBuffer[..], header, cells, innerCount);
    }

    method FillRow(data: seq<bv32>, outerI: nat, innerCount: nat, repr: bv32 -> Cell, ghost cells: seq<seq<Cell>>)
      requires outerI < rows && innerCount == channels && |data| >= rows * channels
      requires cells == Cells(data, rows, channels, repr)
      requires Framed(strBuffer[..], header, rows, channels) && FilledTo(strBuffer[..], cells, innerCount, outerI, 0)
      modifies strBuffer
      ensures Framed(strBuffer[..], header, rows, channels)
      ensures FilledTo(strBuffer[..], cells, innerCount, outerI + 1, 0)
    {
      hide RowStart, Framed, Written, FilledTo, Cells;
      RowStep(outerI, innerCount);
      for innerI := 0 to innerCount
        invariant Framed(strBuffer[..], header, rows, channels)
        invariant FilledTo(strBuffer[..], cells, innerCount, outerI, innerI)
      {
        CellAt(data, rows, channels, repr, outerI, innerI);
        var floatRepr := repr(data[outerI * innerCount + innerI]);
        var dst := LENGTH_STATIC + outerI * InnerLength(innerCount) + 1 + innerI * 7;
        WriteCell(strBuffer[..], header, cells, innerCount, outerI, innerI);
        CopyInto(strBuffer, dst, floatRepr);
      }
      RowFilledUp(strBuffer[..], cells, innerCount, outerI);
    }
  }

  lemma LengthOrder(i: nat, j: nat, c: nat)
    ensures (i < j <==> TotalLength(i, c) < TotalLength(j, c)) && (i == j <==> TotalLength(i, c) == TotalLength(j, c))
  {
    hide RowStart;
    RowStep(i, c);
    RowStep(j, c);
    if i < j { RowOrder(i, j, c); }
    if j < i { RowOrder(j, i, c); }
  }

  lemma RowCount(c: nat)
    requires 0 < c <= HALF_BUFFER
    ensures var rows := 2 * HALF_BUFFER / c / 2;
            rows > 0 && rows * c <= 128 < rows * c + c
  {
    var q := 2 * HALF_BUFFER / c;
    var r := q / 2;
    assert q * c <= 256 < (q + 1) * c;
    assert q >= 2;
    assert 2 * r * c <= q * c && (q + 1) * c <= (2 * r + 2) * c;
  }

  // The header, and rows before row i with a comma behind each.
  ghost predicate RowsFramed(buf: string, header: string, i: nat, c: nat) {
    && |header| == LENGTH_STATIC && RowStart(i, c) <= |buf| && buf[..LENGTH_STATIC] == header
    && (forall j | 0 <= j < i :: RowStart(j, c) + 7 * c < |buf| && RowFramed(buf, RowStart(j, c), c))
    && (forall j | 1 <= j <= i :: LENGTH_STATIC < RowStart(j, c) <= |buf| && buf[RowStart(j, c) - 1] == ',')
  }

  lemma OneRowMore(was: string, buf: string, header: string, i: nat, c: nat)
    requires RowsFramed(was, header, i, c) && |buf| == |was| && RowStart(i + 1, c) <= |buf|
    requires forall q | 0 <= q < RowStart(i, c) :: buf[q] == was[q]
    requires RowStart(i, c) + 7 * c < |buf| && RowFramed(buf, RowStart(i, c), c) && buf[RowStart(i + 1, c) - 1] == ','
    ensures RowsFramed(buf, header, i + 1, c)
  {
    hide RowStart;
    RowStep(i, c);
    RowStep(0, c);
    if i > 0 { RowOrder(0, i, c); }
    assert buf[..LENGTH_STATIC] == was[..LENGTH_STATIC];
    forall j | 0 <= j < i ensures RowStart(j, c) + 7 * c < |buf| && RowFramed(buf, RowStart(j, c), c) {
      RowOrder(j, i, c);
      assert RowFramed(was, RowStart(j, c), c);
    }
    forall j | 1 <= j <= i ensures LENGTH_STATIC < RowStart(j, c) <= |buf| && buf[RowStart(j, c) - 1] == ',' {
      if j < i { RowOrder(j, i, c); }
    }
  }

  // Putting the end of the message over the last comma completes the frame.
  lemma EndFramed(was: string, buf: string, header: string, rows: nat, c: nat)
    requires rows > 0 && c > 0 && RowsFramed(was, header, rows, c) && |buf| == |was| && RowStart(rows, c) + 3 <= |buf|
    requires buf[..RowStart(rows, c) - 1] == was[..RowStart(rows, c) - 1]
    requires buf[RowStart(rows, c) - 1..RowStart(rows, c) + 3] == MESSAGE_END + "\n"
    ensures Framed(buf, header, rows, c)
  {
    hide RowStart;
    var e := RowStart(rows, c);
    RowStep(0, c);
    RowOrder(0, rows, c);
    assert forall q | 0 <= q < e - 1 :: buf[q] == buf[..e - 1][q] == was[q];
    assert buf[..LENGTH_STATIC] == was[..LENGTH_STATIC];
    forall j | 0 <= j < rows ensures RowStart(j, c) + 7 * c < |buf| && RowFramed(buf, RowStart(j, c), c) {
      RowOrder(j, rows, c);
      assert RowFramed(was, RowStart(j, c), c);
    }
    forall j | 1 <= j < rows ensures LENGTH_STATIC < RowStart(j, c) <= |buf| && buf[RowStart(j, c) - 1] == ',' {
      RowOrder(j, rows, c);
    }
  }

  lemma FrameDone(was: string, header: string, rows: nat, c: nat)
    requires rows > 0 && c > 0 && RowsFramed(was, header, rows, c) && RowStart(rows, c) + 3 <= |was|
    ensures RowStart(rows, c) > 0
    ensures var e := RowStart(rows, c);
            Framed(Written(Written(was, e - 1, MESSAGE_END), e + 2, "\n"), header, rows, c)
  {
    hide RowStart, Framed, RowsFramed, Written;
    var e := RowStart(rows, c);
    RowStep(rows, c);
    SpliceEnd(was, e, "");
    assert Written(was, e, "") == was by { NothingSpliced(was, e); }
    EndFramed(was, Written(Written(was, e - 1, MESSAGE_END), e + 2, "\n"), header, rows, c);
  }

  lemma NothingSpliced(buf: string, at: nat)
    requires at <= |buf|
    ensures Written(buf, at, "") == buf
  {
  }

  predicate CellIs(buf: string, at: nat, s: string) { at + 6 <= |buf| && buf[at..at + 6] == s }

  // The cells before cell k of row i hold their values.
  ghost predicate FilledTo(buf: string, cells: seq<seq<Cell>>, c: nat, i: nat, k: nat)
  {
    forall j, m | 0 <= j < |cells| && 0 <= m < |cells[j]| && (j < i || (j == i && m < k)) ::
      CellIs(buf, RowStart(j, c) + 1 + 7 * m, cells[j][m])
  }

  lemma NothingFilled(buf: string, cells: seq<seq<Cell>>, c: nat)
    ensures FilledTo(buf, cells, c, 0, 0)
  {
  }

  lemma CellAt(data: seq<bv32>, rows: nat, c: nat, repr: bv32 -> Cell, i: nat, k: nat)
    requires |data| >= rows * c && i < rows && k < c
    ensures i * c + k < |data| && Cells(data, rows, c, repr)[i][k] == repr(data[i * c + k])
  {
    InData(i, k, rows, c);
  }

  lemma RowFilledUp(buf: string, cells: seq<seq<Cell>>, c: nat, i: nat)
    requires i < |cells| && |cells[i]| == c && FilledTo(buf, cells, c, i, c)
    ensures FilledTo(buf, cells, c, i + 1, 0)
  {
  }

  lemma AllFilled(buf: string, header: string, cells: seq<seq<Cell>>, c: nat)
    requires Framed(buf, header, |cells|, c) && FilledTo(buf, cells, c, |cells|, 0)
    requires forall i | 0 <= i < |cells| :: |cells[i]| == c
    ensures Filled(buf, cells, c)
  {
    hide RowStart;
    forall i | 0 <= i < |cells|
      ensures RowStart(i, c) + 7 * c < |buf| && RowFilled(buf, RowStart(i, c), cells[i])
    {
      forall k | 0 <= k < c ensures buf[RowStart(i, c) + 1 + 7 * k..RowStart(i, c) + 7 + 7 * k] == cells[i][k] {
        assert CellIs(buf, RowStart(i, c) + 1 + 7 * k, cells[i][k]);
      }
    }
  }

  lemma FewerWords(fewer: nat, rows: nat, c: nat)
    requires fewer <= rows
    ensures fewer * c <= rows * c
  {
  }

  // Cells do not touch each other, nor the frame.
  lemma CellsApart(i: nat, k: nat, j: nat, m: nat, c: nat)
    requires k < c && m < c && (j < i || (j == i && m < k))
    ensures RowStart(j, c) + 7 + 7 * m <= RowStart(i, c) + 7 * k
  {
    if j < i { RowOrder(j, i, c); }
  }

  /** Writing one value changes neither the frame nor any other value. */
  lemma WriteCell(buf: string, header: string, cells: seq<seq<Cell>>, c: nat, i: nat, k: nat)
    requires Framed(buf, header, |cells|, c) && FilledTo(buf, cells, c, i, k)
    requires i < |cells| && k < c && forall j | 0 <= j < |cells| :: |cells[j]| == c
    ensures RowStart(i, c) + 7 * c < |buf|
    ensures var after := Written(buf, RowStart(i, c) + 1 + 7 * k, cells[i][k]);
            Framed(after, header, |cells|, c) && FilledTo(after, cells, c, i, k + 1)
  {
    hide RowStart;
    var at := RowStart(i, c) + 1 + 7 * k;
    var after := Written(buf, at, cells[i][k]);
    FrameKept(buf, after, header, |cells|, c, i, k);
    forall j, m | 0 <= j < |cells| && 0 <= m < c && (j < i || (j == i && m < k + 1))
      ensures CellIs(after, RowStart(j, c) + 1 + 7 * m, cells[j][m])
    {
      if j == i && m == k {
        assert after[at..at + 6] == cells[i][k];
      } else {
        CellsApart(i, k, j, m, c);
        assert CellIs(buf, RowStart(j, c) + 1 + 7 * m, cells[j][m]);
        var q := RowStart(j, c) + 1 + 7 * m;
        assert after[q..q + 6] == buf[q..q + 6];
      }
    }
  }

  lemma FrameKept(buf: string, after: string, header: string, rows: nat, c: nat, i: nat, k: nat)
    requires Framed(buf, header, rows, c) && i < rows && k < c && |after| == |buf|
    requires forall q | 0 <= q < |buf| && !(RowStart(i, c) + 1 + 7 * k <= q < RowStart(i, c) + 7 + 7 * k) ::
             after[q] == buf[q]
    ensures Framed(after, header, rows, c)
  {
    hide RowStart, RowFramed;
    RowOrder(i, rows, c);
    RowStep(0, c);
    if i > 0 { RowOrder(0, i, c); }
    assert after[..LENGTH_STATIC] == buf[..LENGTH_STATIC];
    var e := RowStart(rows, c);
    assert after[e - 1..e + 3] == buf[e - 1..e + 3];
    forall j | 0 <= j < rows ensures RowStart(j, c) + 7 * c < |after| && RowFramed(after, RowStart(j, c), c) {
      RowKept(buf, after, i, j, k, c);
    }
    forall j | 1 <= j < rows ensures LENGTH_STATIC < RowStart(j, c) <= |after| && after[RowStart(j, c) - 1] == ',' {
      if j <= i { RowOrder(j - 1, j, c); }
      if j < i { RowOrder(j, i, c); }
      if i < j { RowOrder(i, j, c); }
    }
  }

  lemma RowKept(buf: string, after: string, i: nat, j: nat, k: nat, c: nat)
    requires k < c && |after| == |buf| && RowStart(j, c) + 7 * c < |buf| && RowFramed(buf, RowStart(j, c), c)
    requires forall q | 0 <= q < |buf| && !(RowStart(i, c) + 1 + 7 * k <= q < RowStart(i, c) + 7 + 7 * k) ::
               after[q] == buf[q]
    ensures RowFramed(after, RowStart(j, c), c)
  {
    hide RowStart;
    if j < i { RowOrder(j, i, c); }
    if i < j { RowOrder(i, j, c); }
  }

  lemma FramedLength(buf: string, header: string, rows: nat, c: nat)
    requires Framed(buf, header, rows, c)
    ensures RowStart(rows, c) + 3 <= |buf| && rows > 0 && c > 0
  {
  }

  lemma FewerRows(was: string, header: string, rows: nat, fewer: nat, c: nat, zeros: string)
    requires Framed(was, header, rows, c) && 0 < fewer < rows && RowStart(fewer, c) + |zeros| == RowStart(rows, c)
    ensures RowStart(fewer, c) + 3 <= |was|
    ensures var e := RowStart(fewer, c);
            Framed(Written(Written(Written(was, e, zeros), e - 1, MESSAGE_END), e + 2, "\n"), header, fewer, c)
  {
    hide RowStart, Framed, Written;
    var e := RowStart(fewer, c);
    FramedLength(was, header, rows, c);
    RowOrder(fewer, rows, c);
    RowOrder(0, fewer, c);
    RowStep(0, c);
    SpliceEnd(was, e, zeros);
    SameRows(was, Written(Written(Written(was, e, zeros), e - 1, MESSAGE_END), e + 2, "\n"), header, rows, fewer, c);
  }

  lemma SpliceEnd(was: string, e: nat, zeros: string)
    requires 0 < e && e + |zeros| + 3 <= |was|
    ensures var buf := Written(Written(Written(was, e, zeros), e - 1, MESSAGE_END), e + 2, "\n");
            |buf| == |was| && buf[..e - 1] == was[..e - 1] && buf[e - 1..e + 3] == MESSAGE_END + "\n"
  {
  }

  lemma SameRows(was: string, buf: string, header: string, rows: nat, fewer: nat, c: nat)
    requires Framed(was, header, rows, c) && 0 < fewer < rows && |buf| == |was| && RowStart(fewer, c) + 3 <= |buf|
    requires buf[..RowStart(fewer, c) - 1] == was[..RowStart(fewer, c) - 1]
    requires buf[RowStart(fewer, c) - 1..RowStart(fewer, c) + 3] == MESSAGE_END + "\n"
    ensures Framed(buf, header, fewer, c)
  {
    hide RowStart, RowFramed;
    RowOrder(fewer, rows, c);
    EndFramed(was, buf, header, fewer, c);
  }

  // What the data acquisition hands over at a time.
  datatype Block = Block(data: seq<bv32>, rows: nat)

  // The messages for blocks none of which has more rows than the ones before it; a larger one is lost.
  function Messages(header: string, blocks: seq<Block>, rows: nat, c: nat, repr: bv32 -> Cell): seq<string>
    requires forall b | b in blocks :: |b.data| >= b.rows * c
  {
    if blocks == [] then [] else
      var b := blocks[0];
      if b.rows <= rows then [MessageOf(header, Cells(b.data, b.rows, c, repr))]
      + Messages(header, blocks[1..], b.rows, c, repr)
      else Messages(header, blocks[1..], rows, c, repr)
  }

  /** A run: the template is prepared once and used for every block. */
  method SendRun(handler: Handler, runId: string, entityId: string, c: nat, blocks: seq<Block>, repr: bv32 -> Cell)
    returns (sent: seq<string>)
    requires handler.strBuffer.Length == BUFFER_LENGTH && 0 < c <= HALF_BUFFER
    requires |runId| == LENGTH_RUN_ID && |entityId| == LENGTH_ENTITY_ID
    requires forall b | b in blocks :: b.rows > 0 && |b.data| >= b.rows * c
    modifies handler, handler.strBuffer
    ensures sent == Messages(Header(runId, entityId), blocks, 2 * HALF_BUFFER / c / 2, c, repr)
  {
    hide Header, MessageOf, Cells, Framed, TotalLength;
    handler.Prepare(runId, entityId, c);
    sent := [];
    var i := 0;
    while i < |blocks|
      invariant 0 <= i <= |blocks|
      invariant handler.Prepared() && handler.channels == c && handler.header == Header(runId, entityId)
      invariant sent + Messages(handler.header, blocks[i..], handler.rows, c, repr)
                == Messages(handler.header, blocks, 2 * HALF_BUFFER / c / 2, c, repr)
    {
      assert blocks[i] in blocks && blocks[i..][0] == blocks[i] && blocks[i..][1..] == blocks[i + 1..];
      var message := handler.Handle(blocks[i].data, blocks[i].rows, c, repr);
      if message.Some? { sent := sent + [message.value]; }
      i := i + 1;
    }
  }

  /** With row counts that never grow, as the acquisition's do, every block is sent. */
  lemma {:induction false} NothingLost(header: string, blocks: seq<Block>, rows: nat, c: nat, repr: bv32 -> Cell)
    requires forall b | b in blocks :: |b.data| >= b.rows * c
    requires forall i | 0 <= i < |blocks| :: blocks[i].rows <= rows
    requires forall i, j | 0 <= i < j < |blocks| :: blocks[j].rows <= blocks[i].rows
    ensures |Messages(header, blocks, rows, c, repr)| == |blocks|
    ensures forall i | 0 <= i < |blocks| :: blocks[i] in blocks &&
              Messages(header, blocks, rows, c, repr)[i] ==
              MessageOf(header, Cells(blocks[i].data, blocks[i].rows, c, repr))
  {
    hide MessageOf, Cells;
    if blocks != [] {
      var rest := blocks[1..];
      assert forall i | 0 <= i < |rest| :: rest[i] == blocks[i + 1];
      NothingLost(header, rest, blocks[0].rows, c, repr);
      var tail := Messages(header, rest, blocks[0].rows, c, repr);
      forall i | 0 <= i < |blocks|
        ensures Messages(header, blocks, rows, c, repr)[i] ==
                MessageOf(header, Cells(blocks[i].data, blocks[i].rows, c, repr))
      {
        if i > 0 { assert tail[i - 1] == MessageOf(header, Cells(rest[i - 1].data, rest[i - 1].rows, c, repr)); }
      }
    }
  }
}
