/** The Base64 codec of the firmware upload path (section 4 of RFC 4648).

    Characters are bytes, as in the source.  The specification is index-wise: symbol i of an
    encoding and byte j of a decoding are cut out of 24-bit groups.  The methods are the
    source's loops, which carry a sextet counter through the data. */
module Base64 {
  const PADDING: bv8 := 0x3D // '='

  // Width of the source's size_t.
  const SIZE_T: nat := 0x1_0000_0000

  // 'A'..'Z', 'a'..'z', '0'..'9', '+', '/'; anything else is an assertion in the source.
  function SextetFromIndex(index: bv8): (symbol: bv8)
  {
    if index < 26 then 0x41 + index
    else if index < 52 then 0x61 + (index - 26)
    else if index < 62 then 0x30 + (index - 52)
    else if index == 62 then 0x2B
    else if index == 63 then 0x2F
    else PADDING
  }

  function IndexFromSextet(symbol: bv8): (index: bv8)
    ensures index < 64
  {
    if 0x41 <= symbol <= 0x5A then symbol - 0x41
    else if 0x61 <= symbol <= 0x7A then symbol - 0x61 + 26
    else if 0x30 <= symbol <= 0x39 then symbol - 0x30 + 52
    else if symbol == 0x2B then 62
    else if symbol == 0x2F then 63
    else 0
  }

  lemma AlphabetInverse(index: bv8)
    requires index < 64
    ensures IndexFromSextet(SextetFromIndex(index)) == index
    ensures SextetFromIndex(index) != PADDING
  {
  }

  // ---------------------------------------------------------------- specification

  function At(x: seq<bv8>, i: nat): bv8 {
    if i < |x| then x[i] else 0
  }

  function Pack3(a: bv8, b: bv8, c: bv8): bv24 {
    ((a as bv24) << 16) | ((b as bv24) << 8) | (c as bv24)
  }

  function Pack4(a: bv8, b: bv8, c: bv8, d: bv8): bv24 {
    ((a as bv24) << 18) | ((b as bv24) << 12) | ((c as bv24) << 6) | (d as bv24)
  }

  // Piece q (0..3) of a 24-bit group, most significant first.
  function Sextet(group: bv24, q: nat): bv8
    requires q < 4
  {
    if q == 0 then ((group >> 18) & 0x3F) as bv8
    else if q == 1 then ((group >> 12) & 0x3F) as bv8
    else if q == 2 then ((group >> 6) & 0x3F) as bv8
    else (group & 0x3F) as bv8
  }

  // Sextet q of group k; bytes past the end of the input count as zero.
  function GroupSextet(x: seq<bv8>, k: nat, q: nat): bv8
    requires q < 4
  {
    Sextet(Pack3(At(x, 3 * k), At(x, 3 * k + 1), At(x, 3 * k + 2)), q)
  }

  function Symbol(x: seq<bv8>, i: nat): bv8 {
    GroupSextet(x, i / 4, i % 4)
  }

  // Number of symbols that carry bits of n bytes, and the padded length.
  function SymbolCount(n: nat): nat { (4 * n + 2) / 3 }
  function PaddedLength(n: nat): nat { 4 * ((n + 2) / 3) }

  function Encoded(x: seq<bv8>): (text: seq<bv8>)
    ensures |text| == PaddedLength(|x|)
  {
    seq(PaddedLength(|x|), (i: nat) => if i < SymbolCount(|x|) then SextetFromIndex(Symbol(x, i)) else PADDING)
  }

  // The symbols of a text: everything before the first padding character.
  function Symbols(text: seq<bv8>): (s: seq<bv8>)
    ensures |s| <= |text| && s == text[..|s|] && PADDING !in s
    ensures |s| < |text| ==> text[|s|] == PADDING
  {
    if text == [] || text[0] == PADDING then [] else [text[0]] + Symbols(text[1..])
  }

  function IndexAt(s: seq<bv8>, i: nat): (index: bv8)
    ensures index < 64
  {
    if i < |s| then IndexFromSextet(s[i]) else 0
  }

  function Octet(group: bv24, q: nat): bv8
    requires q < 3
  {
    if q == 0 then ((group >> 16) & 0xFF) as bv8
    else if q == 1 then ((group >> 8) & 0xFF) as bv8
    else (group & 0xFF) as bv8
  }

  function GroupOctet(s: seq<bv8>, k: nat, q: nat): bv8
    requires q < 3
  {
    Octet(Pack4(IndexAt(s, 4 * k), IndexAt(s, 4 * k + 1), IndexAt(s, 4 * k + 2), IndexAt(s, 4 * k + 3)), q)
  }

  function DecodedByte(s: seq<bv8>, j: nat): bv8 {
    GroupOctet(s, j / 3, j % 3)
  }

  function Decoded(text: seq<bv8>): (x: seq<bv8>)
    ensures |x| == 3 * |Symbols(text)| / 4
  {
    var s := Symbols(text);
    seq(3 * |s| / 4, (j: nat) => DecodedByte(s, j))
  }

  // ---------------------------------------------------------------- as section 4 of RFC 4648 has it

  /** The alphabet: capital letters, small letters, digits, plus and slash. */
  lemma AlphabetOfRfc(index: bv8)
    requires index < 64
    ensures SextetFromIndex(0) == 0x41 && SextetFromIndex(25) == 0x5A // A and Z
    ensures SextetFromIndex(26) == 0x61 && SextetFromIndex(51) == 0x7A // a and z
    ensures SextetFromIndex(52) == 0x30 && SextetFromIndex(61) == 0x39 // 0 and 9
    ensures SextetFromIndex(62) == 0x2B && SextetFromIndex(63) == 0x2F // plus and slash
    ensures index < 61 && index != 25 && index != 51 ==> SextetFromIndex(index + 1) == SextetFromIndex(index) + 1
  {
  }

  // Four sextets and three bytes read as one number.
  function SextetNumber(a: bv8, b: bv8, c: bv8, d: bv8): bv24 {
    0x4_0000 * (a as bv24) + 0x1000 * (b as bv24) + 0x40 * (c as bv24) + (d as bv24)
  }

  function ByteNumber(a: bv8, b: bv8, c: bv8): bv24 {
    0x1_0000 * (a as bv24) + 0x100 * (b as bv24) + (c as bv24)
  }

  lemma SextetWeights(a: bv8, b: bv8, c: bv8)
    ensures var g := Pack3(a, b, c);
            SextetNumber(Sextet(g, 0), Sextet(g, 1), Sextet(g, 2), Sextet(g, 3)) == ByteNumber(a, b, c)
  {
  }

  /** Three bytes and their four symbols are the same 24-bit number, most significant part first. */
  lemma GroupIsNumber(x: seq<bv8>, k: nat)
    requires 3 * k + 2 < |x|
    ensures var t := Encoded(x);
            && 4 * k + 3 < |t|
            && SextetNumber(IndexFromSextet(t[4 * k]), IndexFromSextet(t[4 * k + 1]), IndexFromSextet(t[4 * k + 2]),
                            IndexFromSextet(t[4 * k + 3])) == ByteNumber(x[3 * k], x[3 * k + 1], x[3 * k + 2])
  {
    hide SextetFromIndex, IndexFromSextet, Pack3, Sextet, SextetNumber, ByteNumber;
    var g := Pack3(x[3 * k], x[3 * k + 1], x[3 * k + 2]);
    SextetWeights(x[3 * k], x[3 * k + 1], x[3 * k + 2]);
    forall q: nat | q < 4 ensures IndexFromSextet(Encoded(x)[4 * k + q]) == Sextet(g, q) {
      assert (4 * k + q) / 4 == k && (4 * k + q) % 4 == q && 4 * k + q < SymbolCount(|x|);
      SextetIsSmall(g, q);
      AlphabetInverse(Sextet(g, q));
    }
  }

  /** The padding, by the first test vectors of section 10: f, fo and foo. */
  lemma PaddingOfRfc()
    ensures Encoded([0x66]) == [0x5A, 0x67, 0x3D, 0x3D]
    ensures Encoded([0x66, 0x6F]) == [0x5A, 0x6D, 0x38, 0x3D]
    ensures Encoded([0x66, 0x6F, 0x6F]) == [0x5A, 0x6D, 0x39, 0x76]
  {
  }

  // ---------------------------------------------------------------- round trip

  // Cutting three bytes into sextets and gluing them together again loses nothing.
  lemma SextetsRebuildBytes(a: bv8, b: bv8, c: bv8)
    ensures var g := Pack3(a, b, c);
            var h := Pack4(Sextet(g, 0), Sextet(g, 1), Sextet(g, 2), Sextet(g, 3));
            Octet(h, 0) == a && Octet(h, 1) == b && Octet(h, 2) == c
  {
  }

  lemma SextetIsSmall(g: bv24, q: nat)
    requires q < 4
    ensures Sextet(g, q) < 64
  {
  }

  // Sextets past the last symbol carry no bits, so dropping them loses nothing.
  lemma UnsentSextetIsZero(x: seq<bv8>, i: nat)
    requires SymbolCount(|x|) <= i < PaddedLength(|x|)
    ensures Symbol(x, i) == 0
  {
    var k := i / 4;
    if |x| == 3 * k + 1 {
      assert i % 4 >= 2;
    } else {
      assert |x| == 3 * k + 2 && i % 4 == 3;
    }
    ZeroSextets(At(x, 3 * k), At(x, 3 * k + 1));
  }

  lemma ZeroSextets(a: bv8, b: bv8)
    ensures Sextet(Pack3(a, b, 0), 3) == 0
    ensures Sextet(Pack3(a, 0, 0), 2) == 0
  {
  }

  lemma {:induction false} SymbolsAre(text: seq<bv8>, n: nat)
    requires n <= |text| && PADDING !in text[..n]
    requires n < |text| ==> text[n] == PADDING
    ensures Symbols(text) == text[..n]
  {
    if 0 < n {
      assert text[0] == text[..n][0] && text[1..][..n - 1] == text[..n][1..];
      SymbolsAre(text[1..], n - 1);
    }
  }

  lemma SymbolsOfEncoded(x: seq<bv8>)
    ensures Symbols(Encoded(x)) == Encoded(x)[..SymbolCount(|x|)]
    ensures forall i: nat | i < PaddedLength(|x|) :: IndexAt(Symbols(Encoded(x)), i) == Symbol(x, i)
  {
    var text, n := Encoded(x), SymbolCount(|x|);
    forall i: nat | i < n ensures text[i] != PADDING && IndexFromSextet(text[i]) == Symbol(x, i) {
      SextetIsSmall(Pack3(At(x, 3 * (i / 4)), At(x, 3 * (i / 4) + 1), At(x, 3 * (i / 4) + 2)), i % 4);
      AlphabetInverse(Symbol(x, i));
    }
    var s := Symbols(text);
    SymbolsAre(text, n);
    forall i: nat | n <= i < PaddedLength(|x|) ensures IndexAt(s, i) == Symbol(x, i) {
      UnsentSextetIsZero(x, i);
    }
  }

  lemma GroupRecovered(x: seq<bv8>, k: nat)
    requires 3 * k < |x|
    ensures var s := Symbols(Encoded(x));
            GroupOctet(s, k, 0) == At(x, 3 * k) && GroupOctet(s, k, 1) == At(x, 3 * k + 1) &&
            GroupOctet(s, k, 2) == At(x, 3 * k + 2)
  {
    SymbolsOfEncoded(x);
    var s := Symbols(Encoded(x));
    forall q: nat | q < 4 ensures IndexAt(s, 4 * k + q) == GroupSextet(x, k, q) {
      assert 4 * k + q < PaddedLength(|x|);
      assert (4 * k + q) / 4 == k && (4 * k + q) % 4 == q;
    }
    assert IndexAt(s, 4 * k) == GroupSextet(x, k, 0) by { assert 4 * k + 0 == 4 * k; }
    assert IndexAt(s, 4 * k + 1) == GroupSextet(x, k, 1);
    assert IndexAt(s, 4 * k + 2) == GroupSextet(x, k, 2);
    assert IndexAt(s, 4 * k + 3) == GroupSextet(x, k, 3);
    SextetsRebuildBytes(At(x, 3 * k), At(x, 3 * k + 1), At(x, 3 * k + 2));
  }

  lemma ByteRecovered(x: seq<bv8>, j: nat)
    requires j < |x|
    ensures DecodedByte(Symbols(Encoded(x)), j) == x[j]
  {
    hide Octet, Pack4, IndexAt;
    var k, s := j / 3, Symbols(Encoded(x));
    GroupRecovered(x, k);
    if j % 3 == 0 {
      assert DecodedByte(s, j) == GroupOctet(s, k, 0) == At(x, 3 * k);
    } else if j % 3 == 1 {
      assert DecodedByte(s, j) == GroupOctet(s, k, 1) == At(x, 3 * k + 1);
    } else {
      assert DecodedByte(s, j) == GroupOctet(s, k, 2) == At(x, 3 * k + 2);
    }
  }

  /** decode(encode(x)) == x for every byte string. */
  lemma RoundTrip(x: seq<bv8>)
    ensures Decoded(Encoded(x)) == x
  {
    SymbolsOfEncoded(x);
    forall j: nat | j < |x| ensures DecodedByte(Symbols(Encoded(x)), j) == x[j] {
      ByteRecovered(x, j);
    }
  }

  // ---------------------------------------------------------------- the codec loops

  // Reduced modulo 2^32, eight times the length is eight times its low 29 bits.
  lemma LowBits(n: nat)
    ensures (n * 8) % SIZE_T == 8 * (n % 0x2000_0000)
  {
    var k, r := n / 0x2000_0000, n % 0x2000_0000;
    assert n * 8 == SIZE_T * k + 8 * r;
  }

  function RoundUp4(n: nat): nat { (n + 3) / 4 * 4 }

  lemma SizeInThirds(k: nat, m: nat)
    requires m < 3
    ensures PaddedLength(3 * k + m) == if m == 0 then 4 * k else 4 * k + 4
    ensures 8 * (3 * k + m) / 6 == 4 * k + m
    ensures m > 0 ==> RoundUp4(4 * k + m) == 4 * k + 4
  {
  }

  lemma SizeOf29Bits(n: nat, r: nat, required: nat)
    requires r == n % 0x2000_0000
    requires required == if n % 3 == 0 then 8 * r / 6 else RoundUp4(8 * r / 6)
    ensures required == PaddedLength(n) <==> n < 0x2000_0000
  {
    hide PaddedLength, RoundUp4;
    SizeInThirds(n / 3, n % 3);
    if n < 0x2000_0000 {
      assert n == r == 3 * (n / 3) + n % 3;
    } else {
      SizeInThirds(r / 3, r % 3);
      RoundedUp(8 * r / 6, RoundUp4(8 * r / 6));
      assert n >= r + 0x2000_0000;
    }
  }

  lemma RoundedUp(n: nat, m: nat)
    ensures n <= RoundUp4(n) < n + 4 && RoundUp4(n) % 4 == 0
    ensures n <= m <= RoundUp4(n) && m % 4 == 0 ==> m == RoundUp4(n)
  {
  }

  /** The size computation is done in size_t, so it is right exactly below 2^29 input bytes. */
  method EncodeSize(inputLength: nat) returns (required: nat)
    requires inputLength < SIZE_T
    ensures required == PaddedLength(inputLength) <==> inputLength < 0x2000_0000
  {
    hide PaddedLength, RoundUp4;
    LowBits(inputLength);
    required := (inputLength * 8) % SIZE_T / 6;
    ghost var start := required;
    RoundedUp(start, start);
    if inputLength % 3 != 0 {
      while required % 4 != 0
        invariant start <= required <= RoundUp4(start)
        decreases start + 4 - required
      {
        required := required + 1;
        RoundedUp(start, RoundUp4(start));
      }
      RoundedUp(start, required);
    }
    SizeOf29Bits(inputLength, inputLength % 0x2000_0000, required);
  }

  datatype SextetState = First | Second | Third | Fourth

  function StateIndex(state: SextetState): nat {
    match state case First => 0 case Second => 1 case Third => 2 case Fourth => 3
  }

  // What the four encoder states cut out of the current and the next byte (zero when there is none).
  function First6(c: bv8): bv8 { (c & 0xFC) >> 2 }
  function Second6(c: bv8, next: bv8): bv8 { ((c & 3) << 4) | ((next & 0xF0) >> 4) }
  function Third6(c: bv8, next: bv8): bv8 { ((c & 0x0F) << 2) | ((next & 0xC0) >> 6) }
  function Fourth6(c: bv8): bv8 { c & 0x3F }

  lemma SymbolPieces(x: seq<bv8>, i: nat)
    ensures var k := i / 4;
            var a, b, c := At(x, 3 * k), At(x, 3 * k + 1), At(x, 3 * k + 2);
            Symbol(x, i) == match i % 4
                            case 0 => First6(a)
                            case 1 => Second6(a, b)
                            case 2 => Third6(b, c)
                            case _ => Fourth6(c)
  {
    var k := i / 4;
    SextetPieces(At(x, 3 * k), At(x, 3 * k + 1), At(x, 3 * k + 2));
  }

  lemma SextetPieces(a: bv8, b: bv8, c: bv8)
    ensures var g := Pack3(a, b, c);
            && Sextet(g, 0) == First6(a) && Sextet(g, 1) == Second6(a, b)
            && Sextet(g, 2) == Third6(b, c) && Sextet(g, 3) == Fourth6(c)
  {
  }

  function After(state: SextetState): SextetState {
    match state case First => Second case Second => Third case Third => Fourth case Fourth => First
  }

  // One turn of the encoder's switch; the byte after the current one counts as zero past the end.
  method CutSextet(ghost x: seq<bv8>, ghost i: nat, state: SextetState, c: bv8, following: bv8)
    returns (next: SextetState, index: bv8)
    requires i % 4 == StateIndex(state)
    requires var j := 3 * (i / 4) + (if state == First then 0 else StateIndex(state) - 1);
             c == At(x, j) && following == At(x, j + 1)
    ensures next == After(state) && index == Symbol(x, i)
  {
    hide First6, Second6, Third6, Fourth6, Symbol;
    SymbolPieces(x, i);
    match state {
      case First =>
        index := First6(c);
        next := Second;
      case Second =>
        index := Second6(c, following);
        next := Third;
      case Third =>
        index := Third6(c, following);
        next := Fourth;
      case Fourth =>
        index := Fourth6(c);
        next := First;
    }
  }

  lemma EncodedSymbols(x: seq<bv8>)
    ensures forall i | 0 <= i < PaddedLength(|x|) :: Encoded(x)[i] ==
              if i < SymbolCount(|x|) then SextetFromIndex(Symbol(x, i)) else PADDING
  {
  }

  // How far the encoder is: symbols written against bytes read.
  lemma EncoderPosition(n: nat, pIn: nat, pOut: nat, k: nat, state: SextetState)
    requires pOut == 4 * k + StateIndex(state) && pIn <= n
    requires pIn == 3 * k + (if state == First then 0 else StateIndex(state) - 1)
    ensures pIn < n ==> pOut < SymbolCount(n)
    ensures pIn == n && state != Second ==> pOut == SymbolCount(n)
    ensures SymbolCount(n) <= PaddedLength(n) && (n == 0 ==> PaddedLength(n) == 0)
    ensures pOut / 4 == k && pOut % 4 == StateIndex(state)
  {
  }

  // Fills the output up with padding.
  method PadOut(input: seq<bv8>, output: array<bv8>, from: nat)
    requires from == SymbolCount(|input|) <= PaddedLength(|input|) <= output.Length
    requires forall i | 0 <= i < from :: output[i] == SextetFromIndex(Symbol(input, i))
    modifies output
    ensures forall i | 0 <= i < PaddedLength(|input|) :: output[i] == Encoded(input)[i]
    ensures forall i | PaddedLength(|input|) <= i < output.Length :: output[i] == old(output[i])
  {
    hide SymbolCount, PaddedLength, Symbol, SextetFromIndex, Encoded;
    EncodedSymbols(input);
    ghost var was := output[..];
    var pOut := from;
    while pOut != PaddedLength(|input|)
      invariant from <= pOut <= PaddedLength(|input|)
      invariant forall i | 0 <= i < pOut :: output[i] == Encoded(input)[i]
      invariant forall i | pOut <= i < output.Length :: output[i] == was[i]
    {
      output[pOut] := PADDING;
      pOut := pOut + 1;
    }
  }

  /** Writes the encoding to the front of the output, or nothing if it does not fit. */
  method Encode(input: seq<bv8>, output: array<bv8>) returns (written: nat)
    requires |input| < 0x2000_0000
    modifies output
    ensures written == if PaddedLength(|input|) <= output.Length then PaddedLength(|input|) else 0
    ensures forall i | 0 <= i < written :: output[i] == Encoded(input)[i]
    ensures forall i | written <= i < output.Length :: output[i] == old(output[i])
  {
    hide First6, Second6, Third6, Fourth6, Symbol, SextetFromIndex, Encoded, SymbolCount, PaddedLength;
    EncoderPosition(|input|, 0, 0, 0, First);
    if |input| == 0 { return 0; }
    var required := EncodeSize(|input|);
    if output.Length < required { return 0; }
    ghost var was := output[..];
    var pIn, pOut, next := 0, 0, First;
    ghost var k := 0; // groups done
    while pIn != |input|
      invariant pIn <= |input| && pOut == 4 * k + StateIndex(next) && pOut <= SymbolCount(|input|) <= required
      invariant pIn == 3 * k + (if next == First then 0 else StateIndex(next) - 1)
      invariant pIn == |input| ==> next != Second
      invariant forall i | 0 <= i < pOut :: output[i] == SextetFromIndex(Symbol(input, i))
      invariant forall i | pOut <= i < output.Length :: output[i] == was[i]
      decreases SymbolCount(|input|) - pOut
    {
      var index;
      EncoderPosition(|input|, pIn, pOut, k, next);
      var c, following := input[pIn], if pIn + 1 < |input| then input[pIn + 1] else 0;
      if next != First { pIn := pIn + 1; }
      next, index := CutSextet(input, pOut, next, c, following);
      output[pOut] := SextetFromIndex(index);
      pOut := pOut + 1;
      if next == First { k := k + 1; }
    }
    EncoderPosition(|input|, pIn, pOut, k, next);
    PadOut(input, output, pOut);
    return required;
  }

  /** size_t arithmetic of the source: with no symbol before the padding the count wraps. */
  function DecodeSize(text: seq<bv8>): (size: nat)
    requires |text| < SIZE_T
    ensures Symbols(text) != [] ==> size == |Decoded(text)|
    ensures text != [] && Symbols(text) == [] ==> size == 0xC000_0000
  {
    if text == [] then 0 else
      var length := (|Symbols(text)| + SIZE_T - 1) % SIZE_T;
      length - length / 4
  }

  // The bits a decoder state carries over, and the byte it completes.
  function CarryFirst(index: bv8): bv8 { (index & 0x3F) << 2 }
  function CarrySecond(index: bv8): bv8 { (index & 0x0F) << 4 }
  function CarryThird(index: bv8): bv8 { (index & 3) << 6 }
  function JoinSecond(c: bv8, index: bv8): bv8 { c | ((index & 0x30) >> 4) }
  function JoinThird(c: bv8, index: bv8): bv8 { c | ((index & 0x3C) >> 2) }
  function JoinFourth(c: bv8, index: bv8): bv8 { c | (index & 0x3F) }

  lemma OctetPieces(a: bv8, b: bv8, c: bv8, d: bv8)
    requires a < 64 && b < 64 && c < 64 && d < 64
    ensures var g := Pack4(a, b, c, d);
            && Octet(g, 0) == JoinSecond(CarryFirst(a), b)
            && Octet(g, 1) == JoinThird(CarrySecond(b), c)
            && Octet(g, 2) == JoinFourth(CarryThird(c), d)
  {
  }

  lemma DecodedPieces(s: seq<bv8>, j: nat)
    ensures var k := j / 3;
            var a, b, c, d := IndexAt(s, 4 * k), IndexAt(s, 4 * k + 1), IndexAt(s, 4 * k + 2), IndexAt(s, 4 * k + 3);
            DecodedByte(s, j) == match j % 3
                                 case 0 => JoinSecond(CarryFirst(a), b)
                                 case 1 => JoinThird(CarrySecond(b), c)
                                 case _ => JoinFourth(CarryThird(c), d)
  {
    var k := j / 3;
    OctetPieces(IndexAt(s, 4 * k), IndexAt(s, 4 * k + 1), IndexAt(s, 4 * k + 2), IndexAt(s, 4 * k + 3));
  }

  function Carry(state: SextetState, previous: bv8): bv8 {
    match state
    case First => 0
    case Second => CarryFirst(previous)
    case Third => CarrySecond(previous)
    case Fourth => CarryThird(previous)
  }

  // One turn of the decoder's switch: every sextet but the first of a group completes a byte.
  method TakeSextet(ghost s: seq<bv8>, ghost k: nat, state: SextetState, c: bv8, index: bv8)
    returns (next: SextetState, carry: bv8, completes: bool, whole: bv8)
    requires index == IndexAt(s, 4 * k + StateIndex(state))
    requires state != First ==> c == Carry(state, IndexAt(s, 4 * k + StateIndex(state) - 1))
    ensures next == After(state)
    ensures next != First ==> carry == Carry(next, index)
    ensures completes <==> state != First
    ensures completes ==> whole == DecodedByte(s, 3 * k + StateIndex(state) - 1)
  {
    if state != First { DecodedPieces(s, 3 * k + StateIndex(state) - 1); }
    completes, carry, whole := state != First, c, c;
    match state {
      case First =>
        carry := CarryFirst(index);
        next := Second;
      case Second =>
        whole := JoinSecond(c, index);
        carry := CarrySecond(index);
        next := Third;
      case Third =>
        whole := JoinThird(c, index);
        carry := CarryThird(index);
        next := Fourth;
      case Fourth =>
        whole := JoinFourth(c, index);
        next := First;
    }
  }

  /** Writes the decoding to the front of the output; writes nothing when it does not fit, when
      the text is empty and when it starts with padding. */
  method Decode(text: seq<bv8>, output: array<bv8>) returns (written: nat)
    requires |text| < SIZE_T && output.Length < 0xC000_0000
    modifies output
    ensures written == if |Decoded(text)| <= output.Length then |Decoded(text)| else 0
    ensures forall j | 0 <= j < written :: output[j] == Decoded(text)[j]
    ensures forall j | written <= j < output.Length :: output[j] == old(output[j])
  {
    hide Symbols, DecodedByte, IndexFromSextet, Carry;
    if |text| == 0 { return 0; }
    var required := DecodeSize(text);
    if output.Length < required { return 0; }
    ghost var s := Symbols(text);
    var pIn, pOut, c, next := 0, 0, 0 as bv8, First;
    ghost var k := 0; // groups done
    while pIn != |text|
      invariant pIn <= |s| && pIn == 4 * k + StateIndex(next)
      invariant pOut == 3 * k + (if next == First then 0 else StateIndex(next) - 1)
      invariant next != First ==> c == Carry(next, IndexAt(s, pIn - 1))
      invariant forall j | 0 <= j < pOut :: output[j] == DecodedByte(s, j)
      invariant forall j | pOut <= j < output.Length :: output[j] == old(output[j])
    {
      var sextet := text[pIn];
      if sextet == PADDING { break; }
      assert IndexFromSextet(sextet) == IndexAt(s, pIn);
      pIn := pIn + 1;
      var completes, whole;
      next, c, completes, whole := TakeSextet(s, k, next, c, IndexFromSextet(sextet));
      if completes {
        output[pOut] := whole;
        pOut := pOut + 1;
      }
      if next == First { k := k + 1; }
    }
    return pOut;
  }
}
