/** Big-endian bytes, powers of two and bits. */
module Binary {

  newtype Byte = x: int | 0 <= x < 256

  function Pow2(k: nat): (r: nat)
    ensures r >= 1
  {
    if k == 0 then 1 else 2 * Pow2(k - 1)
  }

  lemma Pow2Step(k: nat)
    ensures Pow2(k + 8) == 256 * Pow2(k)
  {
    assert Pow2(k + 2) == 4 * Pow2(k);
    assert Pow2(k + 4) == 4 * Pow2(k + 2);
    assert Pow2(k + 6) == 4 * Pow2(k + 4);
  }

  lemma {:induction false} Pow2Monotone(a: nat, b: nat)
    requires a <= b
    ensures Pow2(a) <= Pow2(b)
  {
    if a < b {
      Pow2Monotone(a, b - 1);
    }
  }

  /** A byte string read as a big-endian integer. */
  function Value(b: seq<Byte>): nat {
    if b == [] then 0 else 256 * Value(b[..|b| - 1]) + b[|b| - 1] as nat
  }

  /** Bit `i` of `c`, as in `c & (1 << i) != 0`. */
  predicate Bit(c: nat, i: nat) {
    if i == 0 then c % 2 == 1 else Bit(c / 2, i - 1)
  }

  lemma {:induction false} TopBit(c: nat, i: nat)
    requires c < 2 * Pow2(i)
    ensures Bit(c, i) <==> c >= Pow2(i)
  {
    if i > 0 {
      TopBit(c / 2, i - 1);
    }
  }

  /** `binary.BigEndian.PutUint64`, for any width. */
  function BigEndian(x: nat, w: nat): (b: seq<Byte>)
    ensures |b| == w
  {
    if w == 0 then [] else BigEndian(x / 256, w - 1) + [(x % 256) as Byte]
  }

  lemma {:induction false} BigEndianValue(x: nat, w: nat)
    requires x < Pow2(8 * w)
    ensures Value(BigEndian(x, w)) == x
  {
    if w > 0 {
      Pow2Step(8 * (w - 1));
      BigEndianValue(x / 256, w - 1);
      assert BigEndian(x, w)[..w - 1] == BigEndian(x / 256, w - 1);
    }
  }

  /** And writing what was read gives the bytes back. */
  lemma {:induction false} ValueBigEndian(b: seq<Byte>)
    ensures BigEndian(Value(b), |b|) == b
  {
    if b != [] {
      ValueBigEndian(b[..|b| - 1]);
      assert b == b[..|b| - 1] + [b[|b| - 1]];
    }
  }

  /** `c | (1 << i)`. */
  function SetBit(c: nat, i: nat): (r: nat)
    ensures r == if Bit(c, i) then c else c + Pow2(i)
  {
    if i == 0 then 2 * (c / 2) + 1 else 2 * SetBit(c / 2, i - 1) + c % 2
  }

  lemma {:induction false} SetBitFits(c: nat, i: nat, k: nat)
    requires c < Pow2(k) && i < k
    ensures SetBit(c, i) < Pow2(k)
  {
    assert c / 2 < Pow2(k - 1);
    if i > 0 {
      SetBitFits(c / 2, i - 1, k - 1);
    }
  }

  function SetByteBit(c: Byte, i: nat): (r: Byte)
    requires i < 8
    ensures r as nat == SetBit(c as nat, i)
  {
    Pow2Step(0);
    SetBitFits(c as nat, i, 8);
    SetBit(c as nat, i) as Byte
  }

  /** `v` moved up by `k` bits. */
  function Shifted(v: nat, k: nat): nat {
    if k == 0 then v else 2 * Shifted(v, k - 1)
  }

  lemma {:induction false} BitOfSum(v: nat, c: nat, k: nat, i: nat)
    requires c < Pow2(k)
    ensures Bit(Shifted(v, k) + c, i) == if i < k then Bit(c, i) else Bit(v, i - k)
    decreases k
  {
    if k > 0 && i > 0 {
      BitOfSum(v, c / 2, k - 1, i - 1);
      assert (Shifted(v, k) + c) / 2 == Shifted(v, k - 1) + c / 2;
    }
  }

  lemma ShiftedByte(v: nat)
    ensures Shifted(v, 8) == 256 * v
  {
    assert Shifted(v, 2) == 2 * Shifted(v, 1) && Shifted(v, 1) == 2 * Shifted(v, 0);
    assert Shifted(v, 4) == 4 * Shifted(v, 2);
    assert Shifted(v, 6) == 4 * Shifted(v, 4);
  }

  lemma BitInLastByte(v: nat, c: Byte, i: nat)
    ensures Bit(256 * v + c as nat, i) == if i < 8 then Bit(c as nat, i) else Bit(v, i - 8)
  {
    Pow2Step(0);
    ShiftedByte(v);
    BitOfSum(v, c as nat, 8, i);
  }

  /** Setting a clear bit in the right byte of a big-endian number sets it in the number. */
  lemma {:induction false} SetBitInBytes(b: seq<Byte>, i: nat)
    requires i < 8 * |b| && !Bit(Value(b), i)
    ensures Value(b[|b| - 1 - i / 8 := SetByteBit(b[|b| - 1 - i / 8], i % 8)]) == Value(b) + Pow2(i)
    decreases |b|
  {
    var n, j := |b| - 1, |b| - 1 - i / 8;
    var init, x := b[..n], b[j := SetByteBit(b[j], i % 8)];
    BitInLastByte(Value(init), b[n], i);
    if i < 8 {
      assert x[..n] == init;
    } else {
      assert (i - 8) / 8 == i / 8 - 1 && (i - 8) % 8 == i % 8;
      SetBitInBytes(init, i - 8);
      assert x[..n] == init[j := SetByteBit(b[j], i % 8)];
      Pow2Step(i - 8);
    }
  }
}
