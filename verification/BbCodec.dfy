/** The XOR codec applied to file data (lab4/lib/bbcodec.c). */
module BbCodec {
  import opened Bytes

  /** `uint32_t`. */
  newtype Key = x: int | 0 <= x < 0x1_0000_0000

  function Pow2(n: nat): (p: nat)
    ensures p > 0
  {
    if n == 0 then 1 else 2 * Pow2(n - 1)
  }

  function Differ(d: nat, e: nat): (r: nat)
    ensures r <= 1
  {
    if d == e then 0 else 1
  }

  /** Exclusive or of the low `bits` binary digits of two numbers. */
  function Xor(a: nat, b: nat, bits: nat): (r: nat)
    ensures r < Pow2(bits)
  {
    if bits == 0 then 0 else Differ(a % 2, b % 2) + 2 * Xor(a / 2, b / 2, bits - 1)
  }

  lemma BytePower()
    ensures Pow2(8) == 256
  {
    assert Pow2(4) == 16;
    assert Pow2(6) == 64;
  }

  lemma KeyPower()
    ensures Pow2(32) == 0x1_0000_0000
  {
    BytePower();
    assert Pow2(10) == 1024;
    assert Pow2(12) == 4096;
    assert Pow2(14) == 16384;
    assert Pow2(16) == 65536;
    assert Pow2(18) == 262144;
    assert Pow2(20) == 1048576;
    assert Pow2(22) == 4194304;
    assert Pow2(24) == 16777216;
    assert Pow2(26) == 67108864;
    assert Pow2(28) == 268435456;
    assert Pow2(30) == 1073741824;
  }

  /** Both directions are the XOR of 32-bit words. */
  function BbDecode(x: Key, prikey: Key): (r: Key)
  {
    KeyPower();
    Xor(x as nat, prikey as nat, 32) as Key
  }

  function BbEncode(y: Key, pubkey: Key): (r: Key)
  {
    KeyPower();
    Xor(y as nat, pubkey as nat, 32) as Key
  }

  /** The part of a key that survives the truncation to `uint8_t`. */
  function LowByte(key: Key): (r: byte) { U8(key as int) }

  function XorByte(b: byte, k: byte): (r: byte)
  {
    BytePower();
    Xor(b as nat, k as nat, 8) as byte
  }

  function EncodeByte(b: byte, pubkey: Key): (r: byte) { XorByte(b, LowByte(pubkey)) }

  function DecodeByte(b: byte, prikey: Key): (r: byte) { XorByte(b, LowByte(prikey)) }

  lemma XorOfDigits(a: nat, d: nat, b: nat, e: nat, bits: nat)
    requires d <= 1 && e <= 1
    ensures Xor(2 * a + d, 2 * b + e, bits + 1) == Differ(d, e) + 2 * Xor(a, b, bits)
  {
    assert (2 * a + d) / 2 == a && (2 * a + d) % 2 == d;
    assert (2 * b + e) / 2 == b && (2 * b + e) % 2 == e;
  }

  lemma RemainderOfDigits(a: nat, d: nat, p: nat)
    requires d <= 1 && p > 0
    ensures (2 * a + d) % (2 * p) == 2 * (a % p) + d
  {
    var q, r := a / p, a % p;
    assert a == p * q + r;
    assert 2 * p * q == 2 * (p * q);
    ModuloUnique(2 * a + d, 2 * p, q, 2 * r + d);
  }

  /** The low `bits` binary digits of a number. */
  function Low(x: nat, bits: nat): (r: nat)
  {
    if bits == 0 then 0 else x % 2 + 2 * Low(x / 2, bits - 1)
  }

  lemma {:induction false} LowIsRemainder(x: nat, bits: nat)
    ensures Low(x, bits) == x % Pow2(bits)
  {
    if bits > 0 {
      LowIsRemainder(x / 2, bits - 1);
      RemainderOfDigits(x / 2, x % 2, Pow2(bits - 1));
    }
  }

  lemma LowOfDigits(x: nat, d: nat, bits: nat)
    requires d <= 1
    ensures Low(2 * x + d, bits + 1) == d + 2 * Low(x, bits)
  {
    assert (2 * x + d) / 2 == x && (2 * x + d) % 2 == d;
  }

  lemma LowDigitsOneMore(a: nat, d: nat, b: nat, e: nat, low: nat, high: nat)
    requires d <= 1 && e <= 1
    requires Low(Xor(a, b, low + high), low) == Xor(a, Low(b, low), low)
    ensures Low(Xor(2 * a + d, 2 * b + e, low + 1 + high), low + 1) == Xor(2 * a + d, Low(2 * b + e, low + 1), low + 1)
  {
    XorOfDigits(a, d, b, e, low + high);
    LowOfDigits(Xor(a, b, low + high), Differ(d, e), low);
    LowOfDigits(b, e, low);
    XorOfDigits(a, d, Low(b, low), e, low);
  }

  /** The low digits of an exclusive or come from the low digits. */
  lemma {:induction false} XorOfLowDigits(a: nat, b: nat, low: nat, high: nat)
    ensures Low(Xor(a, b, low + high), low) == Xor(a, Low(b, low), low)
  {
    if low > 0 {
      var a1, d, b1, e := a / 2, a % 2, b / 2, b % 2;
      XorOfLowDigits(a1, b1, low - 1, high);
      LowDigitsOneMore(a1, d, b1, e, low - 1, high);
      assert a == 2 * a1 + d && b == 2 * b1 + e;
    }
  }

  /** The assignment `data[i] = bbencode(data[i], key)`, and for decoding alike: promotion to 32 bits, XOR with the
      32-bit key, truncation to 8 bits. */
  lemma TruncatedXor(b: byte, key: Key)
    ensures EncodeByte(b, key) == U8(BbEncode(b as int as Key, key) as int)
    ensures DecodeByte(b, key) == U8(BbDecode(b as int as Key, key) as int)
  {
    var x, k := b as nat, key as nat;
    BytePower();
    XorOfLowDigits(x, k, 8, 24);
    LowIsRemainder(k, 8);
    LowIsRemainder(Xor(x, k, 32), 8);
  }

  lemma CancelsOneMore(a: nat, d: nat, p: nat, e: nat, k: nat, f: nat, bits: nat)
    requires d <= 1 && e <= 1 && f <= 1
    requires Xor(Xor(a, p, bits), k, bits) == a <==> p == k
    ensures Xor(Xor(2 * a + d, 2 * p + e, bits + 1), 2 * k + f, bits + 1) == 2 * a + d <==> 2 * p + e == 2 * k + f
  {
    XorOfDigits(a, d, p, e, bits);
    XorOfDigits(Xor(a, p, bits), Differ(d, e), k, f, bits);
  }

  /** Applying XOR twice gives the number back exactly when the second operand was the same. */
  lemma {:induction false} XorCancels(a: nat, p: nat, k: nat, bits: nat)
    requires a < Pow2(bits) && p < Pow2(bits) && k < Pow2(bits)
    ensures Xor(Xor(a, p, bits), k, bits) == a <==> p == k
  {
    if bits > 0 {
      var a1, p1, k1 := a / 2, p / 2, k / 2;
      XorCancels(a1, p1, k1, bits - 1);
      CancelsOneMore(a1, a % 2, p1, p % 2, k1, k % 2, bits - 1);
      assert a == 2 * a1 + a % 2 && p == 2 * p1 + p % 2 && k == 2 * k1 + k % 2;
    }
  }

  // ---------------------------------------------------------------------------------------------
  // Digit by digit

  lemma HalfThenDivide(x: nat, p: nat)
    requires p > 0
    ensures x / (2 * p) == x / 2 / p
  {
    var q, r := x / 2 / p, x / 2 % p;
    assert x / 2 == p * q + r;
    assert 2 * p * q == 2 * (p * q);
    ModuloUnique(x, 2 * p, q, 2 * r + x % 2);
    QuotientUnique(x, 2 * p, q, 2 * r + x % 2);
  }

  lemma QuotientUnique(x: nat, n: nat, q: nat, r: nat)
    requires r < n && x == n * q + r && x % n == r
    ensures x / n == q
  {
    var e := x / n - q;
    assert x == n * (x / n) + x % n;
    assert n * e == n * (x / n) - n * q == 0;
    MultipleInRange(n, e);
  }

  lemma DividedHalf(x: nat, i: nat)
    requires i > 0
    ensures x / Pow2(i) == x / 2 / Pow2(i - 1)
  {
    HalfThenDivide(x, Pow2(i - 1));
  }

  /** Digit `i` of the exclusive or is 1 exactly when the digits of the operands are different. */
  lemma {:induction false} XorDigit(a: nat, b: nat, bits: nat, i: nat)
    requires i < bits
    ensures Xor(a, b, bits) / Pow2(i) % 2 == 1 <==> a / Pow2(i) % 2 != b / Pow2(i) % 2
  {
    var x, y := Xor(a, b, bits), Xor(a / 2, b / 2, bits - 1);
    assert x / 2 == y && x % 2 == Differ(a % 2, b % 2);
    if i == 0 {
      assert Pow2(0) == 1;
    } else {
      DividedHalf(a, i);
      DividedHalf(b, i);
      DividedHalf(x, i);
      XorDigit(a / 2, b / 2, bits - 1, i - 1);
    }
  }

  lemma OneMoreLowDigit(a: nat, d: nat, b: nat, e: nat, bits: nat)
    requires d <= 1 && e <= 1 && Xor(a, Low(b, bits), bits) == Xor(a, b, bits)
    ensures Xor(2 * a + d, Low(2 * b + e, bits + 1), bits + 1) == Xor(2 * a + d, 2 * b + e, bits + 1)
  {
    LowOfDigits(b, e, bits);
    XorOfDigits(a, d, Low(b, bits), e, bits);
    XorOfDigits(a, d, b, e, bits);
  }

  lemma {:induction false} OnlyLowDigits(a: nat, b: nat, bits: nat)
    ensures Xor(a, Low(b, bits), bits) == Xor(a, b, bits)
  {
    if bits > 0 {
      OnlyLowDigits(a / 2, b / 2, bits - 1);
      OneMoreLowDigit(a / 2, a % 2, b / 2, b % 2, bits - 1);
      assert a == 2 * (a / 2) + a % 2 && b == 2 * (b / 2) + b % 2;
    }
  }

  lemma EncodedInBits(b: byte, key: Key, bits: nat)
    requires bits == 8
    ensures EncodeByte(b, key) as int == DecodeByte(b, key) as int == Xor(b as nat, key as nat, bits)
  {
    BytePower();
    LowIsRemainder(key as nat, bits);
    OnlyLowDigits(b as nat, key as nat, bits);
  }

  /** Each of the eight digits of an encoded byte is 1 exactly when those of the byte and of the key are different. */
  lemma EncodedDigit(b: byte, key: Key, i: nat)
    requires i < 8
    ensures EncodeByte(b, key) as int / Pow2(i) % 2 == 1 <==> b as int / Pow2(i) % 2 != key as int / Pow2(i) % 2
    ensures DecodeByte(b, key) as int / Pow2(i) % 2 == 1 <==> b as int / Pow2(i) % 2 != key as int / Pow2(i) % 2
  {
    var bits := 8;
    EncodedInBits(b, key, bits);
    XorDigit(b as nat, key as nat, bits, i);
  }

  lemma UnchangedOneMore(a: nat, d: nat, b: nat, e: nat, bits: nat)
    requires d <= 1 && e <= 1 && (Xor(a, b, bits) == a <==> b == 0)
    ensures Xor(2 * a + d, 2 * b + e, bits + 1) == 2 * a + d <==> 2 * b + e == 0
  {
    XorOfDigits(a, d, b, e, bits);
  }

  lemma {:induction false} XorUnchangedIff(a: nat, b: nat, bits: nat)
    requires a < Pow2(bits) && b < Pow2(bits)
    ensures Xor(a, b, bits) == a <==> b == 0
  {
    if bits > 0 {
      XorUnchangedIff(a / 2, b / 2, bits - 1);
      UnchangedOneMore(a / 2, a % 2, b / 2, b % 2, bits - 1);
      assert a == 2 * (a / 2) + a % 2 && b == 2 * (b / 2) + b % 2;
    }
  }

  /** A key leaves bytes as they are if and only if its low byte is zero. */
  lemma EncodesNothingIff(b: byte, key: Key)
    ensures EncodeByte(b, key) == b <==> key as int % 256 == 0
    ensures DecodeByte(b, key) == b <==> key as int % 256 == 0
  {
    BytePower();
    XorUnchangedIff(b as nat, key as int % 256, 8);
  }

  /** Only the low byte of a key matters, and it must be the same on both sides. */
  lemma ByteRoundTripIff(b: byte, pubkey: Key, prikey: Key)
    ensures DecodeByte(EncodeByte(b, pubkey), prikey) == b <==> LowByte(pubkey) == LowByte(prikey)
  {
    BytePower();
    XorCancels(b as nat, LowByte(pubkey) as nat, LowByte(prikey) as nat, 8);
  }

  function EncodeData(data: seq<byte>, pubkey: Key): (r: seq<byte>)
    ensures |r| == |data|
  {
    seq(|data|, i requires 0 <= i < |data| => EncodeByte(data[i], pubkey))
  }

  function DecodeData(data: seq<byte>, prikey: Key): (r: seq<byte>)
    ensures |r| == |data|
  {
    seq(|data|, i requires 0 <= i < |data| => DecodeByte(data[i], prikey))
  }

  /** Decoding undoes encoding on every non-empty buffer exactly when the low key bytes agree. */
  lemma DataRoundTripIff(data: seq<byte>, pubkey: Key, prikey: Key)
    requires data != []
    ensures DecodeData(EncodeData(data, pubkey), prikey) == data <==> LowByte(pubkey) == LowByte(prikey)
  {
    var back := DecodeData(EncodeData(data, pubkey), prikey);
    forall i | 0 <= i < |data|
      ensures back[i] == data[i] <==> LowByte(pubkey) == LowByte(prikey)
    {
      ByteRoundTripIff(data[i], pubkey, prikey);
    }
    if back == data {
      assert back[0] == data[0];
    }
  }

  /** In-place encoding of a whole buffer. */
  method BbEncodeData(data: array<byte>, size: nat, pubkey: Key)
    requires size <= data.Length
    modifies data
    ensures data[..size] == EncodeData(old(data[..size]), pubkey)
    ensures data[size..] == old(data[size..])
  {
    var i := 0;
    while i < size
      invariant i <= size
      invariant forall j | 0 <= j < i :: data[j] == EncodeByte(old(data[j]), pubkey)
      invariant forall j | i <= j < data.Length :: data[j] == old(data[j])
    {
      data[i] := EncodeByte(data[i], pubkey);
      i := i + 1;
    }
  }

  /** In-place decoding of a whole buffer. */
  method BbDecodeData(data: array<byte>, size: nat, prikey: Key)
    requires size <= data.Length
    modifies data
    ensures data[..size] == DecodeData(old(data[..size]), prikey)
    ensures data[size..] == old(data[size..])
  {
    var i := 0;
    while i < size
      invariant i <= size
      invariant forall j | 0 <= j < i :: data[j] == DecodeByte(old(data[j]), prikey)
      invariant forall j | i <= j < data.Length :: data[j] == old(data[j])
    {
      data[i] := DecodeByte(data[i], prikey);
      i := i + 1;
    }
  }
}
