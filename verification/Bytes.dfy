/** Big-endian base-256 strings, as BN_bn2bin/BN_bin2bn and int.to_bytes/int.from_bytes use them. */
module Bytes {
  import opened Arith

  type Byte = b: int | 0 <= b < 256

  function BitLength(n: nat): nat {
    if n == 0 then 0 else 1 + BitLength(n / 2)
  }

  /** BN_num_bytes(n), and (n.bit_length() + 7) // 8. */
  function ByteLength(n: nat): nat {
    (BitLength(n) + 7) / 8
  }

  /** The low `len` base-256 digits of `n`, most significant first. */
  function BigEndian(n: nat, len: nat): (s: seq<Byte>)
    ensures |s| == len
  {
    if len == 0 then [] else BigEndian(n / 256, len - 1) + [n % 256]
  }

  function Value(s: seq<Byte>): nat {
    if s == [] then 0 else Value(s[..|s| - 1]) * 256 + s[|s| - 1]
  }

  lemma {:induction false} BitLengthBounds(n: nat)
    ensures n < Pow2(BitLength(n))
    ensures n > 0 ==> Pow2(BitLength(n) - 1) <= n
  {
    if n == 0 {
    } else {
      BitLengthBounds(n / 2);
    }
  }

  lemma {:induction false} PowBytes(k: nat)
    ensures Pow2(8 * k) == Pow(256, k)
  {
    if k == 0 {
    } else {
      PowBytes(k - 1);
      PowAdd(2, 8, 8 * (k - 1));
      assert Pow(2, 8) == 256 by {
        assert Pow(2, 4) == 16;
        PowAdd(2, 4, 4);
      }
    }
  }

  /** ByteLength is the least number of base-256 digits that hold `n`. */
  lemma ByteLengthMinimal(n: nat)
    ensures n < Pow(256, ByteLength(n))
    ensures n > 0 ==> ByteLength(n) > 0 && Pow(256, ByteLength(n) - 1) <= n
  {
    var bits, k := BitLength(n), ByteLength(n);
    BitLengthBounds(n);
    PowBytes(k);
    PowMonotone(2, bits, 8 * k);
    if n > 0 {
      PowBytes(k - 1);
      PowMonotone(2, 8 * (k - 1), bits - 1);
    }
  }

  lemma DivideBelow(n: nat, p: nat)
    requires n < 256 * p
    ensures n / 256 < p
  {
  }

  lemma ValueAppend(s: seq<Byte>, d: Byte)
    ensures Value(s + [d]) == Value(s) * 256 + d
  {
    assert (s + [d])[..|s|] == s;
  }

  lemma ValueOneMore(high: nat, low: Byte, len: nat)
    requires Value(BigEndian(high, len)) == high
    ensures Value(BigEndian(high * 256 + low, len + 1)) == high * 256 + low
  {
    ValueAppend(BigEndian(high, len), low);
  }

  lemma {:induction false} ValueOfBigEndian(n: nat, len: nat)
    requires n < Pow(256, len)
    ensures Value(BigEndian(n, len)) == n
  {
    if len == 0 {
    } else {
      DivideBelow(n, Pow(256, len - 1));
      ValueOfBigEndian(n / 256, len - 1);
      ValueOneMore(n / 256, n % 256, len - 1);
    }
  }

  /** Most significant digit first. */
  lemma {:induction false} ValueFirst(d: Byte, s: seq<Byte>)
    ensures Value([d] + s) == d * Pow(256, |s|) + Value(s)
  {
    if s == [] {
      assert [d] + s == [] + [d];
      ValueAppend([], d);
    } else {
      var t, low := s[..|s| - 1], s[|s| - 1];
      ValueFirst(d, t);
      assert s == t + [low];
      ValueFirstStep(d, t, low);
    }
  }

  lemma ValueFirstStep(d: Byte, t: seq<Byte>, low: Byte)
    requires Value([d] + t) == d * Pow(256, |t|) + Value(t)
    ensures Value([d] + (t + [low])) == d * Pow(256, |t| + 1) + Value(t + [low])
  {
    var p, p', v := Pow(256, |t|), Pow(256, |t| + 1), Value(t);
    assert p' == 256 * p;
    assert [d] + (t + [low]) == ([d] + t) + [low];
    ValueAppend([d] + t, low);
    ValueAppend(t, low);
    ShiftDigits(d, p, v);
  }

  lemma ShiftDigits(d: int, p: int, v: int)
    ensures (d * p + v) * 256 == d * (256 * p) + v * 256
  {
  }

  lemma {:induction false} ValueBound(s: seq<Byte>)
    ensures Value(s) < Pow(256, |s|)
    ensures s != [] && s[0] != 0 ==> Pow(256, |s| - 1) <= Value(s)
  {
    if s == [] {
    } else {
      ValueBound(s[..|s| - 1]);
    }
  }

  lemma {:induction false} BigEndianOfValue(s: seq<Byte>)
    ensures BigEndian(Value(s), |s|) == s
  {
    if s == [] {
    } else {
      var t := s[..|s| - 1];
      BigEndianOfValue(t);
      assert Value(s) / 256 == Value(t) && Value(s) % 256 == s[|s| - 1];
      assert s == t + [s[|s| - 1]];
    }
  }

  lemma {:induction false} LeadingZero(s: seq<Byte>)
    requires s != [] && s[0] == 0
    ensures Value(s) < Pow(256, |s| - 1)
  {
    if |s| == 1 {
      assert s[..0] == [];
    } else {
      LeadingZero(s[..|s| - 1]);
    }
  }

  /** A digit string is the minimal one for its value exactly when it has no leading zero. */
  lemma MinimalString(s: seq<Byte>)
    ensures ByteLength(Value(s)) == |s| <==> (s == [] || s[0] != 0)
  {
    var n := Value(s);
    ByteLengthMinimal(n);
    ValueBound(s);
    var k := ByteLength(n);
    if s != [] && s[0] != 0 {
      if k < |s| {
        PowMonotone(256, k, |s| - 1);
      } else if k > |s| {
        PowMonotone(256, |s|, k - 1);
      }
    } else if s != [] {
      LeadingZero(s);
    }
  }
}
