// SmallFloat: a field length as one norm byte, four significant bits and an
// exponent. The encoding and the decoding are adjoint: a byte stands for the
// smallest length that encodes to it, and a length encodes to the largest byte
// whose length it reaches.
module SmallFloat {
  import opened Bits
  import Direct

  const MAX_INT4 := 231
  const NUM_FREE_VALUES := 255 - MAX_INT4

  // 64 - i.leading_zeros()
  function NumBits(i: nat): nat { Direct.BitLength(i) }

  function LongToInt4(i: nat): nat {
    if NumBits(i) < 4 then i
    else
      var shift := NumBits(i) - 4;
      Or(Low(Shr(i, shift), 3), Shl(shift + 1, 3))
  }

  function Int4ToLong(n: nat): nat {
    var bits := Low(n, 3);
    if Shr(n, 3) == 0 then bits else Shl(Or(bits, 8), Shr(n, 3) - 1)
  }

  // `as u8` keeps the low byte.
  function IntToByte4(i: int): byte {
    if i < 0 then 0
    else if i < NUM_FREE_VALUES then i
    else (NUM_FREE_VALUES + LongToInt4(i - NUM_FREE_VALUES)) % 256
  }

  function Byte4ToInt(b: byte): nat {
    if b < NUM_FREE_VALUES then b else Int4ToLong(b - NUM_FREE_VALUES) + NUM_FREE_VALUES
  }

  lemma {:induction false} ShlShrAdjoint(q: nat, s: nat, i: nat)
    ensures Shl(q, s) <= i <==> q <= Shr(i, s)
    decreases s
  {
    if s > 0 {
      ShlShrAdjoint(q, s - 1, i / 2);
    }
  }

  lemma LowThree(n: nat)
    ensures Low(n, 3) == n % 8 && Shr(n, 3) == n / 8 && Shl(n, 3) == 8 * n
  {
    assert Low(n, 3) == n % 2 + 2 * Low(n / 2, 2);
    assert Low(n / 2, 2) == n / 2 % 2 + 2 * Low(n / 2 / 2, 1);
    assert Low(n / 2 / 2, 1) == n / 2 / 2 % 2;
    assert Shr(n, 3) == Shr(n / 2 / 2, 1);
    assert Shl(n, 3) == 2 * Shl(n, 2);
  }

  // A number of at least four bits is its top four, shifted back, and a rest.
  lemma {:induction false} TopFour(i: nat)
    requires NumBits(i) >= 4
    ensures 8 <= Shr(i, NumBits(i) - 4) < 16
    decreases i
  {
    if NumBits(i) > 4 {
      TopFour(i / 2);
    } else {
      Direct.BitLengthIs(i, 4);
      Direct.BitLengthIs(i, 3);
      assert Pow2(3) == 8 && Pow2(4) == 16;
    }
  }

  lemma PowThree()
    ensures Pow2(3) == 8
  {
  }

  lemma Int4Of(i: nat)
    requires NumBits(i) >= 4
    ensures LongToInt4(i) == Shr(i, NumBits(i) - 4) + 8 * (NumBits(i) - 4)
  {
    hide Direct.BitLength, Shr, Shl, Low, Or;
    var shift := NumBits(i) - 4;
    TopFour(i);
    LowThree(Shr(i, shift));
    LowThree(shift + 1);
    PowThree();
    OrDisjoint(Shr(i, shift) % 8, shift + 1, 3);
  }

  lemma LongOf(n: nat)
    requires n >= 8
    ensures Int4ToLong(n) == Shl(n % 8 + 8, n / 8 - 1)
  {
    hide Shr, Shl, Low, Or;
    LowThree(n);
    LowThree(1);
    PowThree();
    OrDisjoint(n % 8, 1, 3);
  }

  lemma FewBits(i: nat)
    ensures NumBits(i) < 4 <==> i < 8
  {
    hide Direct.BitLength;
    Direct.BitLengthIs(i, 3);
    assert Pow2(3) == 8;
  }

  // i reaches the length n stands for exactly when its encoding reaches n.
  lemma Int4Adjoint(i: nat, n: nat)
    ensures LongToInt4(i) >= n <==> i >= Int4ToLong(n)
  {
    hide Shl, Shr, Low, Or, LongToInt4, Int4ToLong, Direct.BitLength;
    FewBits(i);
    if n < 8 {
      SmallLong(n);
      SmallInt4(i);
      if i >= 8 {
        Int4Of(i);
        TopFour(i);
      }
    } else {
      LongOf(n);
      if i < 8 {
        SmallInt4(i);
        ShlAtLeast(n % 8 + 8, n / 8 - 1);
      } else {
        Int4Of(i);
        TopFour(i);
        Compare(i, NumBits(i) - 4, n % 8 + 8, n / 8 - 1);
      }
    }
  }

  lemma SmallLong(n: nat)
    requires n < 8
    ensures Int4ToLong(n) == n
  {
    LowThree(n);
  }

  lemma SmallInt4(i: nat)
    ensures NumBits(i) < 4 ==> LongToInt4(i) == i
  {
  }

  lemma {:induction false} ShlAtLeast(q: nat, s: nat)
    ensures Shl(q, s) >= q
    decreases s
  {
    if s > 0 {
      ShlAtLeast(q, s - 1);
    }
  }

  // Numbers whose top four bits sit at shifts s and t compare as (shift, bits).
  lemma Compare(i: nat, s: nat, q: nat, t: nat)
    requires 8 <= q < 16 && 8 <= Shr(i, s) < 16
    ensures Shr(i, s) + 8 * s >= q + 8 * t <==> i >= Shl(q, t)
  {
    hide Shl, Shr;
    ShlShrAdjoint(q, t, i);
    if s > t {
      Shift16(t, s);
      ShlShrAdjoint(8, s, i);
      ShlMonotone(q, 16, t);
    } else if s < t {
      Shift16(s, t);
      ShlShrAdjoint(16, s, i);
      ShlMonotone(8, q, t);
    }
  }

  lemma {:induction false} Shift16(a: nat, b: nat)
    requires a < b
    ensures Shl(16, a) <= Shl(8, b)
    decreases b
  {
    if b == a + 1 {
      DoubleInside(8, a);
    } else {
      Shift16(a, b - 1);
    }
  }

  lemma {:induction false} DoubleInside(x: nat, s: nat)
    ensures Shl(2 * x, s) == 2 * Shl(x, s)
    decreases s
  {
    if s > 0 {
      DoubleInside(x, s - 1);
    }
  }

  lemma EightShifted()
    ensures Shl(8, 28) == 0x8000_0000
  {
    ShlShl(8, 14, 14);
    assert Shl(8, 14) == 0x2_0000;
    assert Shl(0x2_0000, 14) == 0x8000_0000;
  }

  lemma LargestByte(i: nat)
    requires i < 0x8000_0000
    ensures LongToInt4(i) <= MAX_INT4
  {
    hide LongToInt4, Int4ToLong;
    Int4Adjoint(i, MAX_INT4 + 1);
    LongOf(232);
    EightShifted();
  }

  // For every length an i32 can hold: the byte reaches b exactly when the length
  // reaches the length b stands for.
  lemma NormAdjoint(i: nat, b: byte)
    requires i < 0x8000_0000
    ensures IntToByte4(i) >= b <==> i >= Byte4ToInt(b)
  {
    hide LongToInt4, Int4ToLong;
    if i >= NUM_FREE_VALUES {
      LargestByte(i - NUM_FREE_VALUES);
      if b >= NUM_FREE_VALUES {
        Int4Adjoint(i - NUM_FREE_VALUES, b - NUM_FREE_VALUES);
      }
    }
  }

  // What a byte stands for: itself below 24; then eight lengths one apart, and from there
  // on eight lengths to every doubling.
  lemma ByteStandsFor(b: byte)
    ensures b < 24 ==> Byte4ToInt(b) == b
    ensures b >= 24 ==> var e, m := (b - 24) / 8, (b - 24) % 8;
                        Byte4ToInt(b) == 24 + if e == 0 then m else (8 + m) * Pow2(e - 1)
  {
    hide Int4ToLong, Shl, Pow2;
    if b >= 32 {
      LongOf(b - 24);
      ShlTimes((b - 24) % 8 + 8, (b - 24) / 8 - 1);
    } else if b >= 24 {
      SmallLong(b - 24);
    }
  }

  lemma {:induction false} ShlTimes(q: nat, s: nat)
    ensures Shl(q, s) == q * Pow2(s)
    decreases s
  {
    if s > 0 {
      ShlTimes(q, s - 1);
      DoubleInside(q, s - 1);
      assert q * Pow2(s) == 2 * (q * Pow2(s - 1));
    }
  }

  lemma LargestLength(b: byte)
    ensures Byte4ToInt(b) < 0x8000_0000
  {
    hide Int4ToLong, LongToInt4;
    if b >= NUM_FREE_VALUES {
      Int4Adjoint(0x7800_0000, b - NUM_FREE_VALUES);
      BigInt4();
    }
  }

  lemma BigInt4()
    ensures LongToInt4(0x7800_0000) == MAX_INT4
  {
    hide LongToInt4, Int4ToLong;
    LongOf(231);
    assert Shl(15, 27) == 0x7800_0000 by {
      ShlShl(15, 14, 13);
      assert Shl(15, 14) == 0x3_C000;
      assert Shl(0x3_C000, 13) == 0x7800_0000;
    }
    Int4Adjoint(0x7800_0000, 231);
    LargestByte(0x7800_0000);
  }

  // Decoding gives the largest length not above the input that has its own byte,
  // and the encoding keeps the order.
  lemma NormRoundTrip(i: nat, j: nat, b: byte)
    requires i <= j < 0x8000_0000
    ensures Byte4ToInt(IntToByte4(i)) <= i
    ensures IntToByte4(i) <= IntToByte4(j)
    ensures Byte4ToInt(b) < 0x8000_0000 && IntToByte4(Byte4ToInt(b)) == b
  {
    hide IntToByte4, Byte4ToInt;
    NormAdjoint(i, IntToByte4(i));
    NormAdjoint(j, IntToByte4(i));
    LargestLength(b);
    NormAdjoint(Byte4ToInt(b), b);
    if b < 255 {
      NormAdjoint(Byte4ToInt(b), b + 1);
      StrictLength(b);
    }
  }

  // Different bytes stand for different lengths.
  lemma StrictLength(b: byte)
    requires b < 255
    ensures Byte4ToInt(b) < Byte4ToInt(b + 1)
  {
    hide Int4ToLong;
    if b == NUM_FREE_VALUES - 1 {
      SmallLong(0);
    } else if b >= NUM_FREE_VALUES {
      StrictInt4(b - NUM_FREE_VALUES);
    }
  }

  lemma StrictInt4(n: nat)
    ensures Int4ToLong(n) < Int4ToLong(n + 1)
  {
    hide Int4ToLong;
    if n < 7 {
      SmallLong(n);
      SmallLong(n + 1);
    } else if n == 7 {
      SmallLong(7);
      LongOf(8);
    } else {
      LongOf(n);
      LongOf(n + 1);
      if n % 8 == 7 {
        assert (n + 1) / 8 == n / 8 + 1;
        Shift16(n / 8 - 1, n / 8);
        ShlStrict(15, n / 8 - 1);
      } else {
        ShlStrict(n % 8 + 8, n / 8 - 1);
      }
    }
  }

  lemma {:induction false} ShlStrict(q: nat, s: nat)
    ensures Shl(q, s) < Shl(q + 1, s)
    decreases s
  {
    if s > 0 {
      ShlStrict(q, s - 1);
    }
  }
}
