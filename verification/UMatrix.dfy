/** Bit packing for the U-block crosspoint chips: five bits per output, last output first. */
module UMatrix {
  import opened Arithmetic

  // ---------------------------------------------------------------- buffers as numbers

  // The buffer read as a big-endian number.
  function Value(buffer: seq<bv8>): nat {
    if buffer == [] then 0 else Value(buffer[..|buffer| - 1]) * 256 + buffer[|buffer| - 1] as nat
  }

  // One byte of a left shift by five, with the byte that follows it.
  function ShiftedByte(b: bv8, next: bv8): bv8 {
    (b << 5) | ((next >> 3) & 0x1F)
  }

  // The buffer shifted left by five bits; `next` is the byte that follows it.
  function Shifted(buffer: seq<bv8>, next: bv8): (s: seq<bv8>)
    ensures |s| == |buffer|
  {
    seq(|buffer|, i requires 0 <= i < |buffer| =>
      ShiftedByte(buffer[i], if i + 1 < |buffer| then buffer[i + 1] else next))
  }

  lemma DisjointOr(hi: bv8, lo: bv8, k: bv8)
    requires k == 0x1F || k == 7
    requires hi & k == 0 && lo <= k
    ensures (hi | lo) as nat == hi as nat + lo as nat
  {
  }

  lemma ShiftLeftValue(b: bv8)
    ensures (b << 5) as nat == (b as nat * 32) % 256 && (b << 5) & 0x1F == 0
    ensures (b << 3) as nat == (b as nat * 8) % 256 && (b << 3) & 7 == 0
  {
  }

  lemma TopBits(b: bv8)
    ensures var h := (b >> 3) & 0x1F;
            h as nat == b as nat / 8 && h <= 0x1F
  {
    var h, l := (b >> 3) & 0x1F, b & 7;
    assert b == (h << 3) | l;
    ShiftLeftValue(h);
    DisjointOr(h << 3, l, 7);
    assert h as nat < 32 && l as nat < 8;
  }

  lemma ShiftedByteValue(b: bv8, next: bv8)
    ensures ShiftedByte(b, next) as nat == (b as nat * 32) % 256 + next as nat / 8
  {
    ShiftLeftValue(b);
    TopBits(next);
    DisjointOr(b << 5, (next >> 3) & 0x1F, 0x1F);
  }

  lemma ValueSnoc(s: seq<bv8>)
    requires s != []
    ensures Value(s) == Value(s[..|s| - 1]) * 256 + s[|s| - 1] as nat
  {
  }

  lemma ShiftedSnoc(buffer: seq<bv8>, next: bv8)
    requires buffer != []
    ensures var n := |buffer| - 1;
            Shifted(buffer, next)[..n] == Shifted(buffer[..n], buffer[n])
            && Shifted(buffer, next)[n] == ShiftedByte(buffer[n], next)
  {
    hide ShiftedByte;
  }

  // A shift multiplies by 32; what leaves on the left are the top five bits of the first byte.
  lemma {:induction false} ShiftMultiplies(buffer: seq<bv8>, next: bv8)
    requires buffer != []
    ensures Value(Shifted(buffer, next)) + buffer[0] as nat / 8 * Pow(256, |buffer|)
            == Value(buffer) * 32 + next as nat / 8
  {
    hide ShiftedByte, Shifted, Value, Pow;
    var n := |buffer| - 1;
    var p, z, s := buffer[..n], buffer[n], Shifted(buffer, next);
    ShiftedByteValue(z, next);
    ShiftedSnoc(buffer, next);
    ValueSnoc(s);
    ValueSnoc(buffer);
    PowStep(n);
    if n == 0 {
      EmptyValues(p, s[..0]);
      CombineShift(0, 0, z as nat, next as nat, z as nat / 8, 1);
    } else {
      ShiftMultiplies(p, z);
      CombineShift(Value(s[..n]), Value(p), z as nat, next as nat, p[0] as nat / 8, Pow(256, n));
    }
  }

  lemma PowStep(n: nat)
    ensures Pow(256, n + 1) == 256 * Pow(256, n) && Pow(256, 0) == 1
  {
  }

  lemma EmptyValues(a: seq<bv8>, b: seq<bv8>)
    requires |a| == |b| == 0
    ensures Value(a) == 0 == Value(b)
  {
  }

  lemma CombineShift(shifted: nat, v: nat, z: nat, next: nat, out: nat, w: nat)
    requires shifted + out * w == v * 32 + z / 8
    ensures shifted * 256 + ((z * 32) % 256 + next / 8) + out * (256 * w) == (v * 256 + z) * 32 + next / 8
  {
    assert out * (256 * w) == 256 * (out * w);
  }

  lemma {:induction false} ValueBound(buffer: seq<bv8>)
    ensures Value(buffer) < Pow(256, |buffer|)
  {
    if buffer != [] { ValueBound(buffer[..|buffer| - 1]); }
  }

  // As long as the result fits, nothing leaves on the left.
  lemma ShiftIsTimes32(buffer: seq<bv8>)
    requires buffer != [] && Value(buffer) * 32 < Pow(256, |buffer|)
    ensures Value(Shifted(buffer, 0)) == Value(buffer) * 32
  {
    hide Shifted, Value;
    ShiftMultiplies(buffer, 0);
    NoCarry(buffer[0] as nat / 8, Pow(256, |buffer|), Value(Shifted(buffer, 0)), Value(buffer) * 32);
  }

  lemma NoCarry(out: nat, w: nat, v: nat, total: nat)
    requires v + out * w == total < w
    ensures v == total
  {
    if out > 0 { assert out * w == w + (out - 1) * w; }
  }

  /** Shifts the buffer in place: multiplication by 32 modulo 256^size. */
  method ShiftLeft5(buffer: array<bv8>)
    requires buffer.Length > 0
    modifies buffer
    ensures buffer[..] == Shifted(old(buffer[..]), 0)
    ensures Value(buffer[..]) == (Value(old(buffer[..])) * 32) % Pow(256, buffer.Length)
  {
    hide ShiftedByte, Value;
    ghost var b := buffer[..];
    var size := buffer.Length;
    for idx := 0 to size - 1
      invariant forall i | 0 <= i < idx :: buffer[i] == Shifted(b, 0)[i]
      invariant forall i | idx <= i < size :: buffer[i] == b[i]
    {
      var next := buffer[idx + 1];
      buffer[idx] := ShiftedByte(buffer[idx], next);
    }
    buffer[size - 1] := buffer[size - 1] << 5;
    LastByte(b[size - 1]);
    assert buffer[..] == Shifted(b, 0);
    ShiftModulo(b);
  }

  lemma LastByte(b: bv8)
    ensures ShiftedByte(b, 0) == b << 5
  {
  }

  lemma ShiftModulo(buffer: seq<bv8>)
    requires buffer != []
    ensures Value(Shifted(buffer, 0)) == (Value(buffer) * 32) % Pow(256, |buffer|)
  {
    ShiftMultiplies(buffer, 0);
    ValueBound(Shifted(buffer, 0));
    Division(Value(buffer) * 32, buffer[0] as nat / 8, Value(Shifted(buffer, 0)), Pow(256, |buffer|));
  }

  // ---------------------------------------------------------------- packing

  // The stream of five-bit codes: an enabled output sends 1 and its input, a disabled one zeros.
  function Code(output: int): nat {
    if output >= 0 then 16 + output % 16 else 0
  }

  // The outputs are int8_t, held here as their bytes.
  function Signed(b: bv8): int {
    if b as int < 128 then b as int else b as int - 256
  }

  // The number the stream should be: output i at weight 32^i.
  function Packed(outputs: seq<bv8>): nat {
    if outputs == [] then 0 else Code(Signed(outputs[0])) + 32 * Packed(outputs[1..])
  }

  // What chips that take five bits per output find in the stream.
  function Unpacked(value: nat, n: nat): (outputs: seq<int>)
    ensures |outputs| == n
  {
    if n == 0 then [] else
      var code := value % 32;
      [if code >= 16 then code - 16 else -1] + Unpacked(value / 32, n - 1)
  }

  /** Packing loses nothing: the chips recover the selected input of every enabled output. */
  lemma {:induction false} UnpackPacked(outputs: seq<bv8>)
    requires forall i | 0 <= i < |outputs| :: -1 <= Signed(outputs[i]) < 16
    ensures forall i | 0 <= i < |outputs| :: Unpacked(Packed(outputs), |outputs|)[i] == Signed(outputs[i])
  {
    if outputs != [] {
      UnpackPacked(outputs[1..]);
      Digit(Code(Signed(outputs[0])), Packed(outputs[1..]));
    }
  }

  lemma Digit(code: nat, rest: nat)
    requires code < 32
    ensures (code + 32 * rest) % 32 == code && (code + 32 * rest) / 32 == rest
  {
  }

  lemma {:induction false} PackedBound(outputs: seq<bv8>)
    ensures Packed(outputs) < Pow(32, |outputs|)
  {
    if outputs != [] {
      PackedBound(outputs[1..]);
      assert Code(Signed(outputs[0])) < 32;
    }
  }

  lemma {:induction false} PowMonotone(base: nat, a: nat, b: nat)
    requires base > 0 && a <= b
    ensures Pow(base, a) <= Pow(base, b)
  {
    if a < b {
      PowMonotone(base, a, b - 1);
      Grows(base, Pow(base, b - 1));
    }
  }

  lemma Grows(base: nat, p: nat)
    requires base > 0
    ensures base * p >= p
  {
    assert base * p == p + (base - 1) * p;
  }

  // Eight five-bit codes fill five bytes.
  lemma {:induction false} EightCodesInFiveBytes(q: nat)
    ensures Pow(32, 8 * q) == Pow(256, 5 * q)
  {
    if q > 0 {
      EightCodesInFiveBytes(q - 1);
      EightSteps(8 * (q - 1));
      FiveSteps(5 * (q - 1));
    }
  }

  lemma EightSteps(n: nat)
    ensures Pow(32, n + 8) == 0x100_0000_0000 * Pow(32, n)
  {
    assert Pow(32, n + 2) == 0x400 * Pow(32, n);
    assert Pow(32, n + 4) == 0x10_0000 * Pow(32, n);
    assert Pow(32, n + 6) == 0x4000_0000 * Pow(32, n);
  }

  lemma FiveSteps(n: nat)
    ensures Pow(256, n + 5) == 0x100_0000_0000 * Pow(256, n)
  {
    assert Pow(256, n + 2) == 0x1_0000 * Pow(256, n);
    assert Pow(256, n + 4) == 0x1_0000_0000 * Pow(256, n);
  }

  // The code or-ed into a byte whose low five bits are clear.
  function WithCode(b: bv8, output: bv8): bv8 {
    if output < 0x80 then OrCode(b, output) else b
  }

  function OrCode(b: bv8, input: bv8): bv8 { (b | 0x10) | (input & 0x0F) }

  lemma LowFourBits(b: bv8)
    ensures (b & 0x0F) as nat == b as nat % 16
  {
  }

  lemma OrCodeValue(b: bv8, input: bv8)
    requires b & 0x1F == 0
    ensures OrCode(b, input) as nat == b as nat + 16 + input as nat % 16
  {
    var x := input & 0x0F;
    LowFourBits(input);
    assert OrCode(b, input) == b | (0x10 | x);
    DisjointOr(b, 0x10 | x, 0x1F);
    NibbleCode(x);
  }

  lemma WithCodeValue(b: bv8, output: bv8)
    requires b as nat % 32 == 0
    ensures WithCode(b, output) as nat == b as nat + Code(Signed(output))
  {
    hide OrCode;
    LowFiveBits(b);
    SignBit(output);
    if output < 0x80 { OrCodeValue(b, output); }
  }

  lemma SignBit(b: bv8)
    ensures b < 0x80 <==> Signed(b) >= 0
    ensures b < 0x80 ==> Signed(b) == b as int
  {
  }

  lemma LowFiveBits(b: bv8)
    ensures (b & 0x1F) as nat == b as nat % 32
  {
  }

  lemma NibbleCode(x: bv8)
    requires x <= 0x0F
    ensures (0x10 | x) as nat == 16 + x as nat
  {
  }

  lemma LowDigit(v: nat, z: nat)
    requires (v * 256 + z) % 32 == 0
    ensures z % 32 == 0
  {
    var q, r := z / 32, z % 32;
    Digit(r, 8 * v + q);
  }

  // Putting a code into the last byte adds it to a value that is a multiple of 32.
  lemma CodeAdds(before: seq<bv8>, after: seq<bv8>, output: bv8)
    requires before != [] && Value(before) % 32 == 0
    requires after == before[|before| - 1 := WithCode(before[|before| - 1], output)]
    ensures Value(after) == Value(before) + Code(Signed(output))
  {
    hide WithCode, Value, Code;
    var n := |before| - 1;
    ValueSnoc(before);
    ValueSnoc(after);
    assert after[..n] == before[..n];
    LowDigit(Value(before[..n]), before[n] as nat);
    WithCodeValue(before[n], output);
  }

  lemma {:induction false} ZeroValue(buffer: seq<bv8>)
    requires forall i | 0 <= i < |buffer| :: buffer[i] == 0
    ensures Value(buffer) == 0
  {
    if buffer != [] { ZeroValue(buffer[..|buffer| - 1]); }
  }

  /** Packs the outputs, last one first, by or-ing codes into the end and shifting the buffer. */
  method Transfer(outputs: seq<bv8>) returns (buffer: array<bv8>)
    requires |outputs| > 0 && |outputs| % 8 == 0 && |outputs| * 5 / 8 < 256
    ensures buffer.Length == |outputs| * 5 / 8
    ensures Value(buffer[..]) == Packed(outputs)
    ensures (forall i | 0 <= i < |outputs| :: -1 <= Signed(outputs[i]) < 16) ==>
              forall i | 0 <= i < |outputs| :: Unpacked(Value(buffer[..]), |outputs|)[i] == Signed(outputs[i])
  {
    hide Value, Packed, WithCode, Shifted, Unpacked, Signed;
    var n := |outputs|;
    var size := n * 5 / 8;
    buffer := new bv8[size](i => 0);
    ZeroValue(buffer[..]);
    EmptyPacked(outputs[n..]);
    var idx := n;
    while idx > 0
      invariant 0 <= idx <= n && fresh(buffer) && buffer.Length == size
      invariant Value(buffer[..]) == if idx > 0 then 32 * Packed(outputs[idx..]) else Packed(outputs)
    {
      PackOne(buffer, outputs, idx - 1);
      idx := idx - 1;
    }
    if forall i | 0 <= i < |outputs| :: -1 <= Signed(outputs[i]) < 16 { UnpackPacked(outputs); }
  }

  // One turn of the packing loop.
  method PackOne(buffer: array<bv8>, outputs: seq<bv8>, idx: nat)
    requires idx < |outputs| && |outputs| % 8 == 0 && buffer.Length == |outputs| * 5 / 8 < 256
    requires Value(buffer[..]) == 32 * Packed(outputs[idx + 1..])
    modifies buffer
    ensures Value(buffer[..]) == if idx > 0 then 32 * Packed(outputs[idx..]) else Packed(outputs)
  {
    hide Value, Packed, WithCode, Shifted, Unpacked, Signed, Pow, Code;
    EightCodesInFiveBytes(|outputs| / 8);
    PackedCons(outputs, idx);
    PackedFits(outputs, idx);
    ghost var before := buffer[..];
    buffer[buffer.Length - 1] := WithCode(buffer[buffer.Length - 1], outputs[idx]);
    CodeAdds(before, buffer[..], outputs[idx]);
    if idx > 0 {
      ShiftIsTimes32(buffer[..]);
      ShiftLeft5(buffer);
    }
  }

  lemma EmptyPacked(outputs: seq<bv8>)
    requires outputs == []
    ensures Packed(outputs) == 0
  {
  }

  lemma PackedCons(outputs: seq<bv8>, k: nat)
    requires k < |outputs|
    ensures Packed(outputs[k..]) == Code(Signed(outputs[k])) + 32 * Packed(outputs[k + 1..])
    ensures k == 0 ==> outputs[k..] == outputs
  {
    assert outputs[k..][1..] == outputs[k + 1..];
  }

  lemma PackedFits(outputs: seq<bv8>, k: nat)
    requires k < |outputs| && |outputs| % 8 == 0
    ensures k > 0 ==> Packed(outputs[k..]) * 32 < Pow(256, |outputs| * 5 / 8)
  {
    hide Packed, Pow;
    if k > 0 {
      var n := |outputs|;
      PackedBound(outputs[k..]);
      PowMonotone(32, n - k + 1, n);
      EightGroups(n);
      EightCodesInFiveBytes(n / 8);
      OneFactor(n - k);
    }
  }

  lemma OneFactor(n: nat)
    ensures Pow(32, n + 1) == 32 * Pow(32, n)
  {
  }

  lemma EightGroups(n: nat)
    requires n % 8 == 0
    ensures n == 8 * (n / 8) && n * 5 / 8 == 5 * (n / 8)
  {
  }
}
