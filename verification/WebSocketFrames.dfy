/** WebSocket frames as bytes: headers, masking, sending, and reading from a socket that may return
    less than was asked for. */
module WebSocketFrames {
  import opened Arithmetic
  import opened Options

  type Byte = x: int | 0 <= x < 256
  type Key = k: seq<Byte> | |k| == 4 witness [0, 0, 0, 0]

  const DEFAULT_MASK: Key := [0, 0, 0, 0]
  const MAX_LENGTH: nat := 0x1_0000_0000_0000_0000
  const READ_BUFFER_SIZE: nat := 1024

  datatype Frame = Frame(fin: bool, opcode: nat, mask: bool, payload: seq<Byte>)
  {
    predicate Valid() { opcode < 16 && |payload| < MAX_LENGTH }
  }

  const EmptyFrame := Frame(false, 0, false, [])

  // ---------------------------------------------------------------- numbers in memory

  // The memory image on a little-endian machine, and network byte order.
  function LittleEndian(n: nat, k: nat): (s: seq<Byte>)
    ensures |s| == k
  {
    if k == 0 then [] else [n % 256] + LittleEndian(n / 256, k - 1)
  }

  function FromLittleEndian(s: seq<Byte>): nat {
    if s == [] then 0 else s[0] + 256 * FromLittleEndian(s[1..])
  }

  function BigEndian(n: nat, k: nat): (s: seq<Byte>)
    ensures |s| == k
  {
    if k == 0 then [] else BigEndian(n / 256, k - 1) + [n % 256]
  }

  lemma {:induction false} MemoryRoundTrip(n: nat, k: nat)
    requires n < Pow(256, k)
    ensures FromLittleEndian(LittleEndian(n, k)) == n
  {
    if k > 0 { MemoryRoundTrip(n / 256, k - 1); }
  }

  // Shifts of unsigned numbers; the parts or-ed together never overlap.
  function SwapEndianess16(n: nat): nat
    requires n < 0x1_0000
  {
    (n * 256) % 0x1_0000 + n / 256
  }

  function SwapEndianess32(n: nat): nat
    requires n < 0x1_0000_0000
  {
    var highest := n / 0x100_0000;
    var second := (n * 0x100) % 0x1_0000_0000 / 0x100_0000;
    var third := (n * 0x1_0000) % 0x1_0000_0000 / 0x100_0000;
    var lowest := (n * 0x100_0000) % 0x1_0000_0000 / 0x100_0000;
    highest + second * 0x100 + third * 0x1_0000 + lowest * 0x100_0000
  }

  function SwapEndianess64(n: nat): (r: nat)
    requires n < MAX_LENGTH
  {
    SwapEndianess32(n / 0x1_0000_0000) + SwapEndianess32(n % 0x1_0000_0000) * 0x1_0000_0000
  }

  lemma Swap32Bytes(a: Byte, b: Byte, c: Byte, d: Byte)
    ensures a + b * 0x100 + c * 0x1_0000 + d * 0x100_0000 < 0x1_0000_0000
    ensures SwapEndianess32(a + b * 0x100 + c * 0x1_0000 + d * 0x100_0000) ==
            d + c * 0x100 + b * 0x1_0000 + a * 0x100_0000
  {
    hide SwapEndianess32;
    var n := a + b * 0x100 + c * 0x1_0000 + d * 0x100_0000;
    Division(n, d, a + b * 0x100 + c * 0x1_0000, 0x100_0000);
    Division(n * 0x100, d, a * 0x100 + b * 0x1_0000 + c * 0x100_0000, 0x1_0000_0000);
    Division(a * 0x100 + b * 0x1_0000 + c * 0x100_0000, c, a * 0x100 + b * 0x1_0000, 0x100_0000);
    Division(n * 0x1_0000, c + d * 0x100, a * 0x1_0000 + b * 0x100_0000, 0x1_0000_0000);
    Division(a * 0x1_0000 + b * 0x100_0000, b, a * 0x1_0000, 0x100_0000);
    Division(n * 0x100_0000, b + c * 0x100 + d * 0x1_0000, a * 0x100_0000, 0x1_0000_0000);
    Division(a * 0x100_0000, a, 0, 0x100_0000);
    Swap32Parts(n, d, c, b, a);
  }

  lemma Swap32Parts(n: nat, highest: nat, second: nat, third: nat, lowest: nat)
    requires n < 0x1_0000_0000 && n / 0x100_0000 == highest && (n * 0x100) % 0x1_0000_0000 / 0x100_0000 == second
    requires (n * 0x1_0000) % 0x1_0000_0000 / 0x100_0000 == third
    requires (n * 0x100_0000) % 0x1_0000_0000 / 0x100_0000 == lowest
    ensures SwapEndianess32(n) == highest + second * 0x100 + third * 0x1_0000 + lowest * 0x100_0000
  {
  }

  lemma ByteByByte(x: Byte, y: nat, k: nat)
    ensures LittleEndian(x + 256 * y, k + 1) == [x] + LittleEndian(y, k)
    ensures BigEndian(x + 256 * y, k + 1) == BigEndian(y, k) + [x]
  {
    Division(x + 256 * y, y, x, 256);
  }

  lemma Endians32(a: Byte, b: Byte, c: Byte, d: Byte)
    ensures var n := a + b * 0x100 + c * 0x1_0000 + d * 0x100_0000;
            LittleEndian(n, 4) == [a, b, c, d] && BigEndian(n, 4) == [d, c, b, a]
  {
    hide LittleEndian, BigEndian;
    ByteByByte(a, b + 256 * (c + 256 * d), 3);
    ByteByByte(b, c + 256 * d, 2);
    ByteByByte(c, d, 1);
    ByteByByte(d, 0, 0);
    assert LittleEndian(0, 0) == [] == BigEndian(0, 0);
  }

  lemma Bytes32(n: nat) returns (a: Byte, b: Byte, c: Byte, d: Byte)
    requires n < 0x1_0000_0000
    ensures n == a + b * 0x100 + c * 0x1_0000 + d * 0x100_0000
  {
    var n1 := n / 256;
    var n2 := n1 / 256;
    a, b, c, d := n % 256, n1 % 256, n2 % 256, n2 / 256;
  }

  /** The memory image of a swapped number is its network byte order; swapping undoes itself. */
  lemma Swap32Exact(n: nat)
    requires n < 0x1_0000_0000
    ensures SwapEndianess32(n) < 0x1_0000_0000 && SwapEndianess32(SwapEndianess32(n)) == n
    ensures LittleEndian(SwapEndianess32(n), 4) == BigEndian(n, 4)
  {
    hide SwapEndianess32, LittleEndian, BigEndian;
    var a, b, c, d := Bytes32(n);
    Swap32Bytes(a, b, c, d);
    Swap32Bytes(d, c, b, a);
    Endians32(a, b, c, d);
    Endians32(d, c, b, a);
  }

  lemma Swap16Exact(n: nat)
    requires n < 0x1_0000
    ensures SwapEndianess16(n) < 0x1_0000 && SwapEndianess16(SwapEndianess16(n)) == n
    ensures LittleEndian(SwapEndianess16(n), 2) == BigEndian(n, 2)
  {
    hide LittleEndian, BigEndian;
    var a, b := n % 256, n / 256;
    Division(n * 256, b, a * 256, 0x1_0000);
    Division((b + 256 * a) * 256, a, b * 256, 0x1_0000);
    Division(b + 256 * a, a, b, 256);
    ByteByByte(a, b, 1);
    ByteByByte(b, 0, 0);
    ByteByByte(b, a, 1);
    ByteByByte(a, 0, 0);
    assert LittleEndian(0, 0) == [] == BigEndian(0, 0);
  }

  lemma Halves(x: nat, y: nat)
    requires x < 0x1_0000_0000 && y < 0x1_0000_0000
    ensures LittleEndian(x + y * 0x1_0000_0000, 8) == LittleEndian(x, 4) + LittleEndian(y, 4)
    ensures BigEndian(x + y * 0x1_0000_0000, 8) == BigEndian(y, 4) + BigEndian(x, 4)
  {
    hide LittleEndian, BigEndian;
    var a, b, c, d := Bytes32(x);
    Endians32(a, b, c, d);
    ByteByByte(d, y, 4);
    ByteByByte(c, d + 256 * y, 5);
    ByteByByte(b, c + 256 * (d + 256 * y), 6);
    ByteByByte(a, b + 256 * (c + 256 * (d + 256 * y)), 7);
  }

  lemma Swap64Exact(n: nat)
    requires n < MAX_LENGTH
    ensures SwapEndianess64(n) < MAX_LENGTH && SwapEndianess64(SwapEndianess64(n)) == n
    ensures LittleEndian(SwapEndianess64(n), 8) == BigEndian(n, 8)
  {
    hide SwapEndianess32, LittleEndian, BigEndian;
    var upper, lower := n / 0x1_0000_0000, n % 0x1_0000_0000;
    Swap32Exact(upper);
    Swap32Exact(lower);
    Halves(lower, upper);
    Halves(SwapEndianess32(upper), SwapEndianess32(lower));
    Division(SwapEndianess64(n), SwapEndianess32(lower), SwapEndianess32(upper), 0x1_0000_0000);
  }

  // ---------------------------------------------------------------- headers

  function PayloadField(len: nat): nat { if len < 126 then len else if len < 0x1_0000 then 126 else 127 }

  function FirstBytes(len: nat, opcode: nat, fin: bool, mask: bool): seq<Byte>
    requires opcode < 16
  {
    [(if fin then 128 else 0) + opcode, (if mask then 128 else 0) + PayloadField(len)]
  }

  function GetHeader(len: nat, opcode: nat, fin: bool, mask: bool): seq<Byte>
    requires opcode < 16 && len < MAX_LENGTH
  {
    FirstBytes(len, opcode, fin, mask) +
    (if len < 126 then [] else if len < 0x1_0000 then LittleEndian(SwapEndianess16(len), 2)
     else (Swap64Exact(len); LittleEndian(SwapEndianess64(len), 8)))
  }

  /** The length follows the two fixed bytes in network byte order (section 5.2 of RFC 6455). */
  lemma HeaderInNetworkOrder(len: nat, opcode: nat, fin: bool, mask: bool)
    requires opcode < 16 && len < MAX_LENGTH
    ensures GetHeader(len, opcode, fin, mask) ==
            FirstBytes(len, opcode, fin, mask) +
            (if len < 126 then [] else if len < 0x1_0000 then BigEndian(len, 2) else BigEndian(len, 8))
  {
    hide LittleEndian, BigEndian, SwapEndianess16, SwapEndianess64;
    if len < 0x1_0000 { Swap16Exact(len); } else { Swap64Exact(len); }
  }

  lemma TwoOctets(n: nat)
    requires n < 0x1_0000
    ensures BigEndian(n, 2) == [n / 256, n % 256]
  {
    assert BigEndian(n / 256, 1) == [n / 256];
  }

  // Two octets read as a number.
  function Pair(high: Byte, low: Byte): nat { 256 * (high as int) + low as int }

  lemma PairOf(n: nat)
    requires n < 0x1_0000
    ensures Pair(n / 256, n % 256) == n
  {
  }

  lemma PairSplits(a: Byte, b: Byte)
    ensures Pair(a, b) < 0x1_0000 && Pair(a, b) / 256 == a && Pair(a, b) % 256 == b
    ensures Pair(a, b) == (a as int) * 256 + b as int
  {
  }

  // Four pairs read as a number.
  function Quad(a: nat, b: nat, c: nat, d: nat): nat {
    0x1_0000_0000_0000 * a + 0x1_0000_0000 * b + 0x1_0000 * c + d
  }

  lemma LastTwo(n: nat, k: nat)
    ensures BigEndian(n, k + 2) == BigEndian(n / 0x1_0000, k) + [n / 256 % 256, n % 256]
    ensures n % 0x1_0000 == 256 * (n / 256 % 256) + n % 256
  {
    assert BigEndian(n, k + 2) == BigEndian(n / 256, k + 1) + [n % 256];
    assert BigEndian(n / 256, k + 1) == BigEndian(n / 256 / 256, k) + [n / 256 % 256];
    assert n / 256 / 256 == n / 0x1_0000;
  }

  lemma EightOctets(n: nat)
    requires n < MAX_LENGTH
    ensures var s := BigEndian(n, 8);
            n == Quad(Pair(s[0], s[1]), Pair(s[2], s[3]), Pair(s[4], s[5]), Pair(s[6], s[7]))
  {
    hide BigEndian;
    var n1 := n / 0x1_0000;
    var n2 := n1 / 0x1_0000;
    var n3 := n2 / 0x1_0000;
    LastTwo(n, 6);
    LastTwo(n1, 4);
    LastTwo(n2, 2);
    TwoOctets(n3);
  }

  /** The header octet by octet, as section 5.2 of RFC 6455 numbers them: FIN and opcode, mask bit and
      length, and 2 or 8 further octets of length with the most significant one first. */
  lemma HeaderOctets(len: nat, opcode: nat, fin: bool, mask: bool)
    requires opcode < 16 && len < MAX_LENGTH
    ensures var h := GetHeader(len, opcode, fin, mask);
            && |h| == (if len <= 125 then 2 else if len <= 65535 then 4 else 10)
            && h[0] == opcode + (if fin then 0x80 else 0)
            && h[1] == (if mask then 0x80 else 0) + (if len <= 125 then len else if len <= 65535 then 126 else 127)
            && (126 <= len <= 65535 ==> len == Pair(h[2], h[3]))
            && (65536 <= len ==>
                  len == Quad(Pair(h[2], h[3]), Pair(h[4], h[5]), Pair(h[6], h[7]), Pair(h[8], h[9])))
  {
    hide BigEndian, GetHeader, Pair, Quad;
    HeaderInNetworkOrder(len, opcode, fin, mask);
    if len < 0x1_0000 { TwoOctets(len); PairOf(len); } else { EightOctets(len); }
  }

  // ---------------------------------------------------------------- masking

  // Exclusive or of the lowest k bits.
  function XorBits(a: nat, b: nat, k: nat): (x: nat)
    decreases k
  {
    if k == 0 then 0 else (a + b) % 2 + 2 * XorBits(a / 2, b / 2, k - 1)
  }

  lemma {:induction false} XorFits(a: nat, b: nat, k: nat)
    ensures XorBits(a, b, k) < Pow(2, k)
  {
    if k > 0 { XorFits(a / 2, b / 2, k - 1); }
  }

  lemma Parity(a: nat, b: nat)
    ensures (a + b) % 2 == (a % 2 + b % 2) % 2
  {
    var x, i, y, j := a / 2, a % 2, b / 2, b % 2;
    if i + j < 2 { Division(a + b, x + y, i + j, 2); } else { Division(a + b, x + y + 1, 0, 2); }
  }

  lemma XorUnfolds(a: nat, b: nat, k: nat)
    requires k > 0
    ensures XorBits(a, b, k) == (a + b) % 2 + 2 * XorBits(a / 2, b / 2, k - 1)
  {
  }

  lemma XorStep(a: nat, b: nat, k: nat)
    requires k > 0
    ensures XorBits(a, b, k) / 2 == XorBits(a / 2, b / 2, k - 1)
    ensures XorBits(a, b, k) % 2 == (a % 2 + b % 2) % 2
  {
    hide XorBits;
    XorUnfolds(a, b, k);
    Division(XorBits(a, b, k), XorBits(a / 2, b / 2, k - 1), (a + b) % 2, 2);
    Parity(a, b);
  }

  lemma NoBits(a: nat, b: nat, c: nat)
    ensures XorBits(XorBits(a, b, 0), c, 0) == 0
  {
  }

  lemma BitTells(a: nat, b: nat, c: nat)
    requires a < 2 && b < 2 && c < 2
    ensures ((a + b) % 2 + c) % 2 == a <==> b == c
  {
  }

  lemma {:induction false} XorBitsTell(a: nat, b: nat, c: nat, k: nat)
    requires a < Pow(2, k) && b < Pow(2, k) && c < Pow(2, k)
    ensures XorBits(XorBits(a, b, k), c, k) == a <==> b == c
  {
    hide XorBits;
    NoBits(a, b, c);
    if k > 0 {
      XorBitsTell(a / 2, b / 2, c / 2, k - 1);
      XorStep(a, b, k);
      XorStep(XorBits(a, b, k), c, k);
      BitTells(a % 2, b % 2, c % 2);
    }
  }

  function Xor(a: Byte, b: Byte): Byte {
    XorFits(a, b, 8);
    assert Pow(2, 8) == 256;
    XorBits(a, b, 8)
  }

  lemma XorTells(a: Byte, k: Byte, l: Byte)
    ensures Xor(Xor(a, k), l) == a <==> k == l
  {
    XorBitsTell(a, k, l, 8);
  }

  lemma {:induction false} XorZeroBits(a: nat, k: nat)
    requires a < Pow(2, k)
    ensures XorBits(a, 0, k) == a
  {
    if k > 0 { XorZeroBits(a / 2, k - 1); }
  }

  lemma XorZero(a: Byte)
    ensures Xor(a, 0) == a
  {
    XorZeroBits(a, 8);
  }

  function KeyOctet(key: Key, start: nat, j: nat): Byte { key[(start + j) % 4] }

  // The data with octet j combined with key octet (start + j) modulo 4.
  function Masked(data: seq<Byte>, key: Key, start: nat): (m: seq<Byte>)
    ensures |m| == |data|
  {
    seq(|data|, j requires 0 <= j < |data| => Xor(data[j], KeyOctet(key, start, j)))
  }

  /** Unmasking from the first octet undoes masking whose octets were counted from `start` if and only
      if the key looks the same from there. */
  lemma UnmaskExactly(data: seq<Byte>, key: Key, start: nat)
    ensures Masked(Masked(data, key, start), key, 0) == data
            <==> forall j | 0 <= j < |data| :: KeyOctet(key, start, j) == KeyOctet(key, 0, j)
  {
    hide Xor;
    var m := Masked(Masked(data, key, start), key, 0);
    forall j | 0 <= j < |data| ensures m[j] == data[j] <==> KeyOctet(key, start, j) == KeyOctet(key, 0, j) {
      XorTells(data[j], KeyOctet(key, start, j), KeyOctet(key, 0, j));
    }
    if j :| 0 <= j < |data| && KeyOctet(key, start, j) != KeyOctet(key, 0, j) { assert m[j] != data[j]; }
  }

  lemma ZeroMask(data: seq<Byte>, start: nat)
    ensures Masked(data, DEFAULT_MASK, start) == data
  {
    hide Xor;
    forall j | 0 <= j < |data| ensures Masked(data, DEFAULT_MASK, start)[j] == data[j] {
      XorZero(data[j]);
    }
  }

  // ---------------------------------------------------------------- a frame on the wire

  datatype Parsed = Parsed(frame: Frame, size: nat)

  function FromBigEndian(s: seq<Byte>): nat {
    if s == [] then 0 else FromBigEndian(s[..|s| - 1]) * 256 + s[|s| - 1]
  }

  function ExtendedSize(field: nat): nat { if field == 126 then 2 else if field == 127 then 8 else 0 }

  // The payload length, given the length field and the bytes of the extended length.
  function LengthOf(field: nat, extended: seq<Byte>): nat {
    if ExtendedSize(field) == 0 then field else FromBigEndian(extended)
  }

  /** Reading a frame off a complete stream, as section 5.2 of RFC 6455 lays it out. */
  function Parse(s: seq<Byte>): (p: Option<Parsed>)
    ensures p.Some? ==> 2 <= p.value.size <= |s|
  {
    if |s| < 2 then None else
      var field, mask := s[1] % 128, s[1] >= 128;
      var keyAt := 2 + ExtendedSize(field);
      var dataAt := keyAt + (if mask then 4 else 0);
      if |s| < dataAt then None else
        var len := LengthOf(field, s[2..keyAt]);
        if |s| < dataAt + len then None else
          var data := s[dataAt..dataAt + len];
          Some(Parsed(Frame(s[0] >= 128, s[0] % 16, mask, if mask then Masked(data, s[keyAt..dataAt], 0) else data),
                      dataAt + len))
  }

  // A frame from a peer that masks as section 5.3 of RFC 6455 asks for.
  function Wire(f: Frame, key: Key): seq<Byte>
    requires f.Valid()
  {
    GetHeader(|f.payload|, f.opcode, f.fin, f.mask) + (if f.mask then key + Masked(f.payload, key, 0) else f.payload)
  }

  lemma {:induction false} BigEndianInverse(n: nat, k: nat)
    requires n < Pow(256, k)
    ensures FromBigEndian(BigEndian(n, k)) == n
  {
    if k > 0 {
      BigEndianInverse(n / 256, k - 1);
      assert BigEndian(n, k)[..k - 1] == BigEndian(n / 256, k - 1);
    }
  }

  lemma PowersOf256()
    ensures Pow(256, 2) == 0x1_0000 && Pow(256, 8) == MAX_LENGTH
  {
  }

  lemma HeaderSize(len: nat, opcode: nat, fin: bool, mask: bool)
    requires opcode < 16 && len < MAX_LENGTH
    ensures |GetHeader(len, opcode, fin, mask)| == 2 + ExtendedSize(PayloadField(len))
  {
  }

  lemma HeaderReads(len: nat, opcode: nat, fin: bool, mask: bool, rest: seq<Byte>)
    requires opcode < 16 && len < MAX_LENGTH
    ensures var s := GetHeader(len, opcode, fin, mask) + rest;
            var at := 2 + ExtendedSize(PayloadField(len));
            && |s| == at + |rest| && s[0] % 16 == opcode && (s[0] >= 128) == fin
            && s[1] % 128 == PayloadField(len) && (s[1] >= 128) == mask
            && LengthOf(PayloadField(len), s[2..at]) == len
  {
    hide BigEndian, FromBigEndian, GetHeader;
    HeaderInNetworkOrder(len, opcode, fin, mask);
    PowersOf256();
    var s := GetHeader(len, opcode, fin, mask) + rest;
    if 126 <= len {
      var k := if len < 0x1_0000 then 2 else 8;
      BigEndianInverse(len, k);
      assert s[2..2 + k] == BigEndian(len, k);
    }
  }

  // What a frame's bytes are, position by position.
  lemma WireSlices(f: Frame, key: Key, rest: seq<Byte>)
    requires f.Valid()
    ensures var s, len := Wire(f, key) + rest, |f.payload|;
            var keyAt := |GetHeader(len, f.opcode, f.fin, f.mask)|;
            var dataAt := keyAt + (if f.mask then 4 else 0);
            && |s| == dataAt + len + |rest| && |Wire(f, key)| == dataAt + len
            && s[..keyAt] == GetHeader(len, f.opcode, f.fin, f.mask)
            && (f.mask ==> s[keyAt..dataAt] == key)
            && s[dataAt..dataAt + len] == if f.mask then Masked(f.payload, key, 0) else f.payload
  {
    hide GetHeader, Masked;
  }

  lemma HeaderSlice(f: Frame, s: seq<Byte>)
    requires f.Valid()
    requires var h := GetHeader(|f.payload|, f.opcode, f.fin, f.mask); |h| <= |s| && s[..|h|] == h
    ensures var keyAt := 2 + ExtendedSize(PayloadField(|f.payload|));
            && |GetHeader(|f.payload|, f.opcode, f.fin, f.mask)| == keyAt <= |s|
            && s[0] % 16 == f.opcode && (s[0] >= 128) == f.fin && s[1] % 128 == PayloadField(|f.payload|)
            && (s[1] >= 128) == f.mask && LengthOf(PayloadField(|f.payload|), s[2..keyAt]) == |f.payload|
  {
    hide GetHeader, LengthOf, PayloadField, ExtendedSize;
    var len := |f.payload|;
    var h := GetHeader(len, f.opcode, f.fin, f.mask);
    HeaderSize(len, f.opcode, f.fin, f.mask);
    HeaderReads(len, f.opcode, f.fin, f.mask, s[|h|..]);
    assert s == h + s[|h|..];
  }

  /** Every frame reads back, in all three length encodings, masked or not, and exactly its bytes are used. */
  lemma FrameRoundTrip(f: Frame, key: Key, rest: seq<Byte>)
    requires f.Valid()
    ensures Parse(Wire(f, key) + rest) == Some(Parsed(f, |Wire(f, key)|))
  {
    hide GetHeader, Masked, LengthOf, Wire, PayloadField, ExtendedSize, KeyOctet;
    WireSlices(f, key, rest);
    HeaderSlice(f, Wire(f, key) + rest);
    UnmaskExactly(f.payload, key, 0);
  }

  // ---------------------------------------------------------------- sending

  // Position of the payload within a masked message.
  function DataStart(len: nat): nat { 2 + ExtendedSize(PayloadField(len)) + 4 }

  // What leaves the socket: masking counts the key from the start of the message.
  function Sent(f: Frame, key: Key): seq<Byte>
    requires f.Valid()
  {
    GetHeader(|f.payload|, f.opcode, f.fin, f.mask) +
    (if f.mask then key + Masked(f.payload, key, DataStart(|f.payload|)) else f.payload)
  }

  // In place: combines len octets from position `first` on with the key.
  method RemaskData(data: array<Byte>, key: Key, first: nat, len: nat)
    requires first + len <= data.Length
    modifies data
    ensures data[..] == old(data[..first]) + Masked(old(data[first..first + len]), key, first)
            + old(data[first + len..])
  {
    hide Xor;
    ghost var was := data[..];
    for i := first to first + len
      invariant forall j | 0 <= j < data.Length ::
                  data[j] == if first <= j < i then Xor(was[j], KeyOctet(key, 0, j)) else was[j]
    {
      data[i] := Xor(data[i], key[i % 4]);
    }
    assert forall j | 0 <= j < len :: KeyOctet(key, first, j) == KeyOctet(key, 0, first + j);
    assert data[..] == was[..first] + Masked(was[first..first + len], key, first) + was[first + len..];
  }

  /** Sends one frame.  The default key is not applied. */
  method Send(data: seq<Byte>, opcode: nat, fin: bool, mask: bool, maskingKey: Key) returns (message: seq<Byte>)
    requires opcode < 16 && |data| < MAX_LENGTH
    ensures message == Sent(Frame(fin, opcode, mask, data), maskingKey)
  {
    hide GetHeader, Masked, PayloadField;
    HeaderSize(|data|, opcode, fin, mask);
    message := GetHeader(|data|, opcode, fin, mask);
    ghost var header := message;
    if mask { message := message + maskingKey; }
    var dataStart := |message|;
    ghost var front := message;
    message := message + data;
    if mask && maskingKey != DEFAULT_MASK {
      var buffer := new Byte[|message|](i requires 0 <= i < |message| => message[i]);
      assert buffer[..] == message;
      RemaskData(buffer, maskingKey, dataStart, |data|);
      assert front == message[..dataStart] && message[dataStart..dataStart + |data|] == data
             && message[dataStart + |data|..] == [];
      message := buffer[..];
      assert message == front + Masked(data, maskingKey, dataStart);
    } else if mask {
      ZeroMask(data, dataStart);
    }
    assert mask ==> header + maskingKey + message[dataStart..] == header + (maskingKey + message[dataStart..]);
  }

  // What a receiver makes of a frame sent with this key.
  function Garbled(f: Frame, key: Key): Frame {
    if f.mask then f.(payload := Masked(Masked(f.payload, key, DataStart(|f.payload|)), key, 0)) else f
  }

  // The key looks the same from the payload's position in the message as from its own start.
  predicate KeyFits(len: nat, key: Key) {
    126 <= len < 0x1_0000 || ((len >= 1 ==> key[0] == key[2]) && (len >= 2 ==> key[1] == key[3]))
  }

  /** A frame sent unmasked, or with a key that fits its length, reads back as it was; any other key
      garbles it.  The default key fits every length. */
  lemma SendRoundTrip(f: Frame, key: Key, rest: seq<Byte>)
    requires f.Valid()
    ensures Parse(Sent(f, key) + rest) == Some(Parsed(Garbled(f, key), |Sent(f, key)|))
    ensures Garbled(f, key) == f <==> !f.mask || KeyFits(|f.payload|, key)
    ensures KeyFits(|f.payload|, DEFAULT_MASK)
  {
    hide Masked, GetHeader, Parse;
    if f.mask {
      var m := Masked(f.payload, key, DataStart(|f.payload|));
      UnmaskExactly(m, key, 0);
      UnmaskExactly(f.payload, key, DataStart(|f.payload|));
      KeyFitsExactly(|f.payload|, key);
    }
    assert Sent(f, key) == Wire(Garbled(f, key), key);
    FrameRoundTrip(Garbled(f, key), key, rest);
  }

  lemma KeyFitsExactly(len: nat, key: Key)
    ensures KeyFits(len, key) <==> forall j | 0 <= j < len :: KeyOctet(key, DataStart(len), j) == KeyOctet(key, 0, j)
  {
    var start := DataStart(len);
    forall j: nat ensures KeyOctet(key, start, j) == KeyOctet(key, start % 4, j % 4) { }
    if !KeyFits(len, key) {
      if key[0] != key[2] && len >= 1 {
        assert KeyOctet(key, start, 0) != KeyOctet(key, 0, 0);
      } else {
        assert KeyOctet(key, start, 1) != KeyOctet(key, 0, 1);
      }
    }
  }

  // ---------------------------------------------------------------- receiving

  /* A plan says how the next reads turn out: a negative entry is a failed read, any other limits the
     number of bytes handed out; past its end a read gets what it asked for. */

  // The plan once the failed reads at its front have been repeated.
  function AfterFailures(plan: seq<int>): (rest: seq<int>)
    ensures |rest| <= |plan| && (rest != [] ==> rest[0] >= 0)
  {
    if plan != [] && plan[0] < 0 then AfterFailures(plan[1..]) else plan
  }

  // How many of `len` bytes the next successful read hands out, and the plan behind it.
  function Granted(plan: seq<int>, len: nat): (n: nat)
    ensures n <= len
  {
    var p := AfterFailures(plan);
    if p == [] || p[0] > len then len else p[0]
  }

  function AfterRead(plan: seq<int>): (rest: seq<int>)
    ensures |rest| <= |plan|
  {
    var p := AfterFailures(plan);
    if p == [] then [] else p[1..]
  }

  function Min(a: nat, b: nat): (m: nat)
    ensures m <= a && m <= b
  {
    if a < b then a else b
  }

  /** A connected socket.  Reading when the peer has sent everything closes it. */
  class Socket {
    var stream: seq<Byte>
    var plan: seq<int>
    var open: bool

    constructor (stream: seq<Byte>, plan: seq<int>)
      ensures this.stream == stream && this.plan == plan && open
    {
      this.stream, this.plan, open := stream, plan, true;
    }

    ghost function Progress(): nat
      reads this
    {
      |plan| + |stream| + (if open then 1 else 0)
    }

    method Read(len: nat) returns (n: int, data: seq<Byte>)
      requires open && len > 0
      modifies this
      ensures old(stream) == data + stream && Progress() < old(Progress())
      ensures -1 <= n && (if n < 0 then data == [] else |data| == n)
      ensures if open then n < 0 ==> stream == old(stream) else n < 0 && old(stream) == [] && old(plan) == []
      ensures n < 0 ==> if open then AfterFailures(old(plan)) == AfterFailures(plan) else plan == []
      ensures n >= 0 ==> n == Min(Granted(old(plan), len), |old(stream)|) && plan == AfterRead(old(plan))
    {
      var k: int := len;
      if plan != [] {
        k, plan := plan[0], plan[1..];
      } else if stream == [] {
        open := false;
        return -1, [];
      }
      if k < 0 { return -1, []; }
      if k > len { k := len; }
      if k > |stream| { k := |stream|; }
      n, data, stream := k, stream[..k], stream[k..];
    }
  }

  method ReadUntilSuccessfulOrError(socket: Socket, len: nat) returns (n: int, data: seq<Byte>)
    requires socket.open && len > 0
    modifies socket
    ensures old(socket.stream) == data + socket.stream && socket.Progress() < old(socket.Progress())
    ensures old(socket.stream) != [] ==> socket.open
    ensures if socket.open then n == |data| == Min(Granted(old(socket.plan), len), |old(socket.stream)|)
            else n == -1 && data == []
    ensures socket.plan == AfterRead(old(socket.plan))
  {
    ghost var stream, plan := socket.stream, socket.plan;
    n, data := socket.Read(len);
    while n == -1 && socket.open
      invariant socket.Progress() < old(socket.Progress()) && stream == data + socket.stream
      invariant if n < 0 then n == -1 && data == [] && AfterFailures(plan) == AfterFailures(socket.plan)
                else socket.open && n == |data| == Min(Granted(plan, len), |stream|) && socket.plan == AfterRead(plan)
      invariant !socket.open ==> stream == [] && socket.plan == []
      decreases socket.Progress()
    {
      n, data := socket.Read(len);
    }
  }

  // The plan behind the payload reads, which ask for at most a buffer's worth at a time.
  function AfterData(plan: seq<int>, length: nat): (rest: seq<int>)
    decreases |plan|
  {
    if length == 0 then plan
    else if AfterFailures(plan) == [] then []
    else AfterData(AfterRead(plan), length - Granted(plan, Min(length, 1024)))
  }

  lemma DataStep(plan: seq<int>, length: nat)
    requires length > 0
    ensures var n := Granted(plan, Min(length, 1024));
            n <= length && AfterData(plan, length) == AfterData(AfterRead(plan), length - n)
  {
  }

  /** Collects exactly the next `length` octets, whatever short or failed reads occur on the way. */
  method ReadData(socket: Socket, length: nat) returns (data: seq<Byte>)
    requires socket.open
    modifies socket
    ensures socket.Progress() <= old(socket.Progress()) && |data| == length
    ensures if length <= |old(socket.stream)|
            then old(socket.stream) == data + socket.stream && socket.open
                 && socket.plan == AfterData(old(socket.plan), length)
            else !socket.open
  {
    hide AfterData, Granted, AfterRead;
    data := seq(length, _ => 0);
    ghost var before, plan := socket.stream, socket.plan;
    var doneReading := 0;
    while doneReading < length && socket.open
      invariant 0 <= doneReading <= length && |data| == length && before == data[..doneReading] + socket.stream
      invariant doneReading < |before| ==> socket.open
      invariant socket.Progress() <= old(socket.Progress())
      invariant length <= |before| ==>
                  socket.open && AfterData(socket.plan, length - doneReading) == AfterData(plan, length)
      decreases socket.Progress()
    {
      var toRead := if length - doneReading >= READ_BUFFER_SIZE then READ_BUFFER_SIZE else length - doneReading;
      DataStep(socket.plan, length - doneReading);
      var numReceived, buffer := ReadUntilSuccessfulOrError(socket, toRead);
      if !socket.open { break; }
      data := data[..doneReading] + buffer + data[doneReading + numReceived..];
      doneReading := doneReading + numReceived;
    }
    assert data[..length] == data;
    AllRead(socket.plan);
  }

  lemma AllRead(plan: seq<int>)
    ensures AfterData(plan, 0) == plan
  {
  }

  lemma {:induction false} BytesOfNumber(s: seq<Byte>)
    ensures FromLittleEndian(s) < Pow(256, |s|) && LittleEndian(FromLittleEndian(s), |s|) == s
  {
    if s != [] {
      BytesOfNumber(s[1..]);
      ByteByByte(s[0], FromLittleEndian(s[1..]), |s| - 1);
    }
  }

  // Swapping what was read into a little-endian variable gives the number in network byte order.
  lemma SwapReads(s: seq<Byte>)
    requires |s| == 2 || |s| == 8
    ensures FromLittleEndian(s) < MAX_LENGTH && (|s| == 2 ==> FromLittleEndian(s) < 0x1_0000)
    ensures FromBigEndian(s) == if |s| == 2 then SwapEndianess16(FromLittleEndian(s))
            else SwapEndianess64(FromLittleEndian(s))
  {
    hide LittleEndian, BigEndian, FromLittleEndian, FromBigEndian, SwapEndianess16, SwapEndianess64;
    PowersOf256();
    BytesOfNumber(s);
    var n := FromLittleEndian(s);
    if |s| == 2 {
      Swap16Exact(n);
      Swap16Exact(SwapEndianess16(n));
      BigEndianInverse(SwapEndianess16(n), 2);
    } else {
      Swap64Exact(n);
      Swap64Exact(SwapEndianess64(n));
      BigEndianInverse(SwapEndianess64(n), 8);
    }
  }

  // A part of a head takes one read, or none if it is empty.
  predicate Whole(plan: seq<int>, size: nat) { size == 0 || Granted(plan, size) == size }

  function AfterPart(plan: seq<int>, size: nat): seq<int> { if size == 0 then plan else AfterRead(plan) }

  // One read into a variable; what is not read keeps its old value.
  method ReadInto(socket: Socket, before: seq<Byte>) returns (bytes: seq<Byte>, ghost used: nat)
    requires socket.open && before != []
    modifies socket
    ensures socket.Progress() < old(socket.Progress()) && socket.plan == AfterRead(old(socket.plan))
    ensures used == Min(Granted(old(socket.plan), |before|), |old(socket.stream)|)
    ensures |bytes| == |before| && bytes == old(socket.stream)[..used] + before[used..]
    ensures socket.stream == old(socket.stream)[used..]
    ensures old(socket.stream) != [] ==> socket.open
    ensures used == |before| ==> bytes == old(socket.stream)[..used]
  {
    var n, data := ReadUntilSuccessfulOrError(socket, |before|);
    used := |data|;
    bytes := data + before[|data|..];
  }

  method ReadHeader(socket: Socket, junk: Byte, junkMask: bool)
    returns (first: Byte, mask: bool, field: nat, ghost used: nat)
    requires socket.open
    modifies socket
    ensures socket.Progress() < old(socket.Progress()) && socket.plan == AfterRead(old(socket.plan))
    ensures used == Min(Granted(old(socket.plan), 2), |old(socket.stream)|) && field < 128
    ensures socket.stream == old(socket.stream)[used..]
    ensures old(socket.stream) != [] ==> socket.open
    ensures if used < 2 then field == 0 else
              && first == old(socket.stream)[0]
              && mask == (old(socket.stream)[1] >= 128) && field == old(socket.stream)[1] % 128
  {
    var header;
    header, used := ReadInto(socket, [junk, if junkMask then 128 else 0]);
    first, mask, field := header[0], header[1] >= 128, header[1] % 128;
  }

  method ReadExtendedPayloadLength(socket: Socket, field: nat) returns (length: nat, ghost used: nat)
    requires socket.open && field < 128
    modifies socket
    ensures socket.Progress() <= old(socket.Progress())
    ensures used == Min(Granted(old(socket.plan), ExtendedSize(field)), |old(socket.stream)|)
    ensures socket.plan == AfterPart(old(socket.plan), ExtendedSize(field))
    ensures socket.stream == old(socket.stream)[used..]
    ensures old(socket.stream) != [] || ExtendedSize(field) == 0 ==> socket.open
    ensures used == ExtendedSize(field) ==> length == LengthOf(field, old(socket.stream)[..used])
    ensures field < 126 ==> length == field
  {
    hide FromLittleEndian, FromBigEndian, SwapEndianess16, SwapEndianess64;
    length, used := field, 0;
    if field == 126 {
      var tmp;
      tmp, used := ReadInto(socket, [0, 0]);
      SwapReads(tmp);
      length := SwapEndianess16(FromLittleEndian(tmp));
    } else if field == 127 {
      var tmp;
      tmp, used := ReadInto(socket, [0, 0, 0, 0, 0, 0, 0, 0]);
      SwapReads(tmp);
      length := SwapEndianess64(FromLittleEndian(tmp));
    }
  }

  method ReadMaskingKey(socket: Socket, mask: bool, junkKey: Key) returns (key: Key, ghost used: nat)
    requires socket.open
    modifies socket
    ensures socket.Progress() <= old(socket.Progress())
    ensures used == Min(Granted(old(socket.plan), KeySize(mask)), |old(socket.stream)|)
    ensures socket.plan == AfterPart(old(socket.plan), KeySize(mask))
    ensures socket.stream == old(socket.stream)[used..]
    ensures old(socket.stream) != [] || !mask ==> socket.open
    ensures mask && used == 4 ==> key == old(socket.stream)[..4]
  {
    key, used := junkKey, 0;
    if mask { key, used := ReadInto(socket, junkKey); }
  }

  function KeySize(mask: bool): nat { if mask then 4 else 0 }

  // In place: combines every octet with the key.
  method UnmaskData(data: seq<Byte>, key: Key) returns (plain: seq<Byte>)
    ensures plain == Masked(data, key, 0)
  {
    hide Xor;
    plain := data;
    for i := 0 to |data|
      invariant |plain| == |data|
      invariant forall j | 0 <= j < |data| :: plain[j] == if j < i then Xor(data[j], KeyOctet(key, 0, j)) else data[j]
    {
      plain := plain[i := Xor(plain[i], key[i % 4])];
    }
  }

  // What comes before the payload; size is the number of bytes it took.
  datatype Head = Head(first: Byte, mask: bool, key: Key, length: nat)

  // The head at the front of a stream.
  ghost predicate HeadAt(s: seq<Byte>, head: Head, size: nat) {
    && |s| >= 2 && var field := s[1] % 128; var keyAt := 2 + ExtendedSize(field);
    && size == keyAt + KeySize(head.mask) <= |s|
    && head.first == s[0] && head.mask == (s[1] >= 128) && (head.mask ==> head.key == s[keyAt..size])
    && head.length == LengthOf(field, s[2..keyAt])
  }

  lemma ParseFromHead(s: seq<Byte>, head: Head, size: nat)
    requires HeadAt(s, head, size) && size + head.length <= |s|
    ensures var data := s[size..size + head.length];
            Parse(s) == Some(Parsed(Frame(head.first >= 128, head.first % 16, head.mask,
                                          if head.mask then Masked(data, head.key, 0) else data), size + head.length))
  {
    hide LengthOf, ExtendedSize, Masked;
  }

  // With a short read, the length or the mask bit is wrong, or too few bytes are used.
  ghost predicate Misses(s: seq<Byte>, head: Head, size: nat) {
    Parse(s).Some? && head.length == |Parse(s).value.frame.payload| && head.mask == Parse(s).value.frame.mask
    ==> size + head.length < Parse(s).value.size
  }

  lemma ShortReads(s: seq<Byte>, head: Head, usedHeader: nat, usedLength: nat, usedKey: nat, field: nat)
    requires usedLength <= ExtendedSize(field) && usedKey <= KeySize(head.mask) && usedHeader <= 2
    requires if usedHeader < 2 then field == 0 && head.length == 0
             else |s| >= 2 && field == s[1] % 128 && (usedLength < ExtendedSize(field) || usedKey < KeySize(head.mask))
    ensures Misses(s, head, usedHeader + usedLength + usedKey)
  {
  }

  lemma RoomForHead(s: seq<Byte>)
    ensures Parse(s).Some? ==> |s| >= 2 && |s| >= 2 + ExtendedSize(s[1] % 128) + KeySize(s[1] >= 128)
  {
  }

  lemma FullReads(s: seq<Byte>, head: Head, size: nat)
    requires |s| >= 2 && var keyAt := 2 + ExtendedSize(s[1] % 128);
             && size == keyAt + KeySize(head.mask) <= |s| && (head.mask ==> head.key == s[keyAt..][..4])
             && head.length == LengthOf(s[1] % 128, s[2..][..ExtendedSize(s[1] % 128)])
    requires head.first == s[0] && head.mask == (s[1] >= 128)
    ensures HeadAt(s, head, size)
  {
    var keyAt := 2 + ExtendedSize(s[1] % 128);
    assert s[2..][..keyAt - 2] == s[2..keyAt];
    assert head.mask ==> s[keyAt..][..4] == s[keyAt..size];
  }

  // The reads of the head at the front of a stream get all they ask for: two bytes, then the
  // extended length if there is one, then the key if there is one.
  predicate WholeHead(s: seq<Byte>, plan: seq<int>)
    requires |s| >= 2
  {
    var e := ExtendedSize(s[1] % 128);
    Whole(plan, 2) && Whole(AfterRead(plan), e) && Whole(AfterPart(AfterRead(plan), e), KeySize(s[1] >= 128))
  }

  function AfterHead(s: seq<Byte>, plan: seq<int>): seq<int>
    requires |s| >= 2
  {
    AfterPart(AfterPart(AfterRead(plan), ExtendedSize(s[1] % 128)), KeySize(s[1] >= 128))
  }

  // What the three reads bring, if the stream holds at least the head.
  lemma WholeHeadReads(s: seq<Byte>, plan: seq<int>, usedHeader: nat, usedLength: nat, usedKey: nat, field: nat,
                       mask: bool)
    requires |s| >= 2 && |s| >= 2 + ExtendedSize(s[1] % 128) + KeySize(s[1] >= 128)
    requires usedHeader == Min(Granted(plan, 2), |s|) && usedHeader + usedLength <= |s|
    requires usedHeader == 2 ==> field == s[1] % 128 && mask == (s[1] >= 128)
    requires usedLength == Min(Granted(AfterRead(plan), ExtendedSize(field)), |s| - usedHeader)
    requires usedKey == Min(Granted(AfterPart(AfterRead(plan), ExtendedSize(field)), KeySize(mask)),
                            |s| - usedHeader - usedLength)
    ensures WholeHead(s, plan) <==> usedHeader == 2 && usedLength == ExtendedSize(field) && usedKey == KeySize(mask)
  {
    hide Granted, AfterRead, ExtendedSize;
  }

  // What comes out of the three reads.
  lemma HeadOutcome(s: seq<Byte>, plan: seq<int>, head: Head, usedHeader: nat, usedLength: nat, usedKey: nat,
                    field: nat)
    requires usedHeader == Min(Granted(plan, 2), |s|) && usedHeader + usedLength + usedKey <= |s|
    requires if usedHeader < 2 then field == 0 && head.length == 0
             else head.first == s[0] && field == s[1] % 128 && head.mask == (s[1] >= 128)
    requires usedLength == Min(Granted(AfterRead(plan), ExtendedSize(field)), |s| - usedHeader)
    requires usedKey == Min(Granted(AfterPart(AfterRead(plan), ExtendedSize(field)), KeySize(head.mask)),
                            |s| - usedHeader - usedLength)
    requires usedHeader == 2 && usedLength == ExtendedSize(field) ==>
             head.length == LengthOf(field, s[2..][..usedLength])
    requires head.mask && usedKey == 4 ==> head.key == s[usedHeader + usedLength..][..4]
    ensures |s| >= 2 && Parse(s).Some? ==>
              if WholeHead(s, plan)
              then && HeadAt(s, head, usedHeader + usedLength + usedKey)
                   && AfterPart(AfterPart(AfterRead(plan), ExtendedSize(field)), KeySize(head.mask)) ==
                   AfterHead(s, plan)
              else Misses(s, head, usedHeader + usedLength + usedKey)
  {
    hide Parse, Misses, HeadAt, LengthOf, ExtendedSize, Granted, AfterRead, WholeHead;
    RoomForHead(s);
    if |s| >= 2 && Parse(s).Some? {
      WholeHeadReads(s, plan, usedHeader, usedLength, usedKey, field, head.mask);
      if usedHeader == 2 && usedLength == ExtendedSize(field) && usedKey == KeySize(head.mask) {
        FullReads(s, head, usedHeader + usedLength + usedKey);
      } else {
        ShortReads(s, head, usedHeader, usedLength, usedKey, field);
      }
    }
  }

  // Nothing is left to read only if an earlier read came short.
  lemma WholeHeadLasts(s: seq<Byte>, plan: seq<int>, usedHeader: nat, usedLength: nat, field: nat, mask: bool)
    requires |s| >= 2 && |s| >= 2 + ExtendedSize(s[1] % 128) + KeySize(s[1] >= 128)
    requires usedHeader == Min(Granted(plan, 2), |s|) && usedHeader + usedLength <= |s|
    requires usedHeader == 2 ==> field == s[1] % 128 && mask == (s[1] >= 128)
    requires usedLength <= ExtendedSize(field)
    ensures WholeHead(s, plan) && usedHeader + usedLength == |s| ==> !mask && usedLength == ExtendedSize(field)
  {
    hide Granted, AfterRead, ExtendedSize;
  }

  // The two fixed bytes and the extended length.
  method ReceiveLength(socket: Socket, junk: Byte, junkMask: bool)
    returns (first: Byte, mask: bool, field: nat, length: nat, ghost usedHeader: nat, ghost usedLength: nat)
    requires socket.open
    modifies socket
    ensures socket.Progress() < old(socket.Progress())
    ensures usedHeader == Min(Granted(old(socket.plan), 2), |old(socket.stream)|)
    ensures usedHeader + usedLength <= |old(socket.stream)| && field < 128
    ensures usedLength == Min(Granted(AfterRead(old(socket.plan)), ExtendedSize(field)),
                              |old(socket.stream)| - usedHeader)
    ensures socket.plan == AfterPart(AfterRead(old(socket.plan)), ExtendedSize(field))
    ensures socket.stream == old(socket.stream)[usedHeader + usedLength..]
    ensures usedHeader < 2 ==> field == 0 && length == 0
    ensures usedHeader == 2 ==> var s := old(socket.stream);
              first == s[0] && mask == (s[1] >= 128) && field == s[1] % 128
    ensures usedHeader == 2 && usedLength == ExtendedSize(field) ==>
              length == LengthOf(field, old(socket.stream)[2..][..usedLength])
    ensures old(socket.stream) != [] && (usedHeader < |old(socket.stream)| || ExtendedSize(field) == 0) ==> socket.open
  {
    hide LengthOf, FromBigEndian, Granted, AfterRead;
    ghost var s := socket.stream;
    length, usedLength := 0, 0;
    first, mask, field, usedHeader := ReadHeader(socket, junk, junkMask);
    if !socket.open { return; }
    length, usedLength := ReadExtendedPayloadLength(socket, field);
    assert socket.stream == s[usedHeader + usedLength..];
  }

  /** Fetches header, extended length and key with a single read each; what such a read leaves out
      keeps the variable's earlier content (`junk`). */
  method ReceiveHead(socket: Socket, junk: Byte, junkMask: bool, junkKey: Key) returns (head: Head, ghost size: nat)
    requires socket.open
    modifies socket
    ensures socket.Progress() < old(socket.Progress())
    ensures size <= |old(socket.stream)| && socket.stream == old(socket.stream)[size..]
    ensures var s, plan := old(socket.stream), old(socket.plan);
            |s| >= 2 && Parse(s).Some? ==>
              if WholeHead(s, plan) then socket.open && HeadAt(s, head, size) && socket.plan == AfterHead(s, plan)
              else !socket.open || Misses(s, head, size)
  {
    hide Parse, Misses, HeadAt, LengthOf, FromBigEndian, ExtendedSize, Granted, AfterRead, WholeHead, AfterHead;
    hide AfterPart, Min, KeySize;
    ghost var s, plan := socket.stream, socket.plan;
    RoomForHead(s);
    head := Head(0, false, junkKey, 0);
    var first, mask, field, length, usedHeader, usedLength := ReceiveLength(socket, junk, junkMask);
    size := usedHeader + usedLength;
    if !socket.open {
      if Parse(s).Some? { WholeHeadLasts(s, plan, usedHeader, usedLength, field, mask); }
      return;
    }
    var maskingKey, usedKey := ReadMaskingKey(socket, mask, junkKey);
    assert socket.stream == s[size + usedKey..];
    if !socket.open {
      if Parse(s).Some? { WholeHeadLasts(s, plan, usedHeader, usedLength, field, mask); }
      size := size + usedKey;
      return;
    }
    size := size + usedKey;
    head := Head(first, mask, maskingKey, length);
    HeadOutcome(s, plan, head, usedHeader, usedLength, usedKey, field);
  }

  // The plan behind a whole frame.
  function AfterFrame(s: seq<Byte>, plan: seq<int>): seq<int>
    requires |s| >= 2 && Parse(s).Some?
  {
    AfterData(AfterHead(s, plan), |Parse(s).value.frame.payload|)
  }

  /** Receives one frame.  With a complete frame ahead, this gives that frame and leaves exactly the
      rest if and only if the reads of its head will be whole; those of the payload do not matter. */
  method ReceiveFrame(socket: Socket, junk: Byte, junkMask: bool, junkKey: Key) returns (frame: Frame)
    requires socket.open
    modifies socket
    ensures socket.Progress() < old(socket.Progress())
    ensures var s, plan := old(socket.stream), old(socket.plan);
            Parse(s).Some? ==>
              && (WholeHead(s, plan) <==> && socket.open && frame == Parse(s).value.frame
                                          && socket.stream == s[Parse(s).value.size..])
              && (WholeHead(s, plan) ==> socket.plan == AfterFrame(s, plan))
  {
    hide Masked, Parse, HeadAt, WholeHead, AfterHead, AfterData;
    ghost var s, plan := socket.stream, socket.plan;
    var head, size := ReceiveHead(socket, junk, junkMask, junkKey);
    if !socket.open { return EmptyFrame; }
    ghost var rest := socket.stream;
    if HeadAt(s, head, size) { HeadFits(s, head, size); }
    var payload := ReadData(socket, head.length);
    if !socket.open { return EmptyFrame; }
    assert rest[..head.length] == payload == s[size..size + head.length];
    assert socket.stream == s[size + head.length..];
    if HeadAt(s, head, size) { ParseFromHead(s, head, size); }
    if head.mask { payload := UnmaskData(payload, head.key); }
    frame := Frame(head.first >= 128, head.first % 16, head.mask, payload);
  }

  // A complete frame has room for its payload.
  lemma HeadFits(s: seq<Byte>, head: Head, size: nat)
    requires HeadAt(s, head, size)
    ensures Parse(s).Some? ==> size + head.length <= |s|
  {
  }

  // The heads of the first n frames of a stream will be read whole.
  predicate WholeHeads(s: seq<Byte>, plan: seq<int>, n: nat)
    decreases n
  {
    n == 0 ||
    (Parse(s).Some? ==>
       WholeHead(s, plan) && WholeHeads(s[Parse(s).value.size..], AfterFrame(s, plan), n - 1))
  }

  // No read is cut below eight bytes.
  predicate Unhurried(plan: seq<int>) { forall i | 0 <= i < |plan| :: plan[i] < 0 || plan[i] >= 8 }

  lemma {:induction false} UnhurriedFailures(plan: seq<int>)
    requires Unhurried(plan)
    ensures Unhurried(AfterFailures(plan)) && Unhurried(AfterRead(plan))
    ensures forall n: nat | n <= 8 :: Granted(plan, n) == n
  {
    if plan != [] && plan[0] < 0 { UnhurriedFailures(plan[1..]); }
  }

  lemma {:induction false} UnhurriedData(plan: seq<int>, length: nat)
    requires Unhurried(plan)
    ensures Unhurried(AfterData(plan, length))
    decreases |plan|
  {
    UnhurriedFailures(plan);
    if length != 0 && AfterFailures(plan) != [] {
      UnhurriedData(AfterRead(plan), length - Granted(plan, Min(length, 1024)));
    }
  }

  /** With no read cut below eight bytes, every head is read whole. */
  lemma {:induction false} UnhurriedIsWhole(s: seq<Byte>, plan: seq<int>, n: nat)
    requires Unhurried(plan)
    ensures WholeHeads(s, plan, n)
    decreases n
  {
    hide Parse, Unhurried, AfterRead, Granted, AfterData;
    if n > 0 && Parse(s).Some? {
      var e := ExtendedSize(s[1] % 128);
      UnhurriedFailures(plan);
      UnhurriedFailures(AfterRead(plan));
      UnhurriedFailures(AfterPart(AfterRead(plan), e));
      UnhurriedData(AfterHead(s, plan), |Parse(s).value.frame.payload|);
      UnhurriedIsWhole(s[Parse(s).value.size..], AfterFrame(s, plan), n - 1);
    }
  }
}
