/** cpp/ppc-framework/libwrapper/BigNum.h. A C++ BigNum is a shared pointer to one OpenSSL number, so
    a copy of a BigNum is here a copy of the reference, and every in-place write goes through it. */
module BigNumber {
  import opened Arith
  import opened Bytes
  import opened Outcome

  function Abs(v: int): nat { if v < 0 then -v else v }

  const SIGN_MINUS: Byte := 0xff
  const SIGN_PLUS: Byte := 0x00

  function Encoded(v: int, signed: bool): seq<Byte> {
    var magnitude := BigEndian(Abs(v), ByteLength(Abs(v)));
    if signed then [if v < 0 then SIGN_MINUS else SIGN_PLUS] + magnitude else magnitude
  }

  function Decoded(data: seq<Byte>, signed: bool): Result<int> {
    if data == [] then Err(EmptyBigNumData)
    else if signed then Ok(if data[0] == SIGN_MINUS then 0 - Value(data[1..]) else Value(data[1..]))
    else Ok(Value(data))
  }

  /** Writing and reading back is the identity on every integer when signed, and on exactly the
      positive ones when unsigned: zero is then refused and a negative number loses its sign. */
  lemma RoundTrip(v: int, signed: bool)
    ensures Decoded(Encoded(v, signed), signed) == Ok(v) <==> signed || v > 0
    ensures !signed && v == 0 ==> Decoded(Encoded(v, signed), signed) == Err(EmptyBigNumData)
    ensures !signed && v < 0 ==> Decoded(Encoded(v, signed), signed) == Ok(-v)
  {
    var len := ByteLength(Abs(v));
    var magnitude := BigEndian(Abs(v), len);
    ByteLengthMinimal(Abs(v));
    ValueOfBigEndian(Abs(v), len);
    if signed {
      assert Encoded(v, signed)[1..] == magnitude;
    }
  }

  /** The format itself: a sign byte 0x00 or 0xff if signed, then the magnitude, most significant byte
      first, in as few bytes as hold it. */
  lemma {:induction false} EncodedFormat(v: int, signed: bool)
    ensures var data := Encoded(v, signed);
            var digits := if signed then data[1..] else data;
            && (signed ==> data != [] && data[0] == if v < 0 then 0xff else 0x00)
            && (digits == [] <==> v == 0) && (digits != [] ==> digits[0] != 0)
            && Value(digits) == if v < 0 then -v else v
  {
    var len := ByteLength(Abs(v));
    var magnitude := BigEndian(Abs(v), len);
    ByteLengthMinimal(Abs(v));
    ValueOfBigEndian(Abs(v), len);
    MinimalString(magnitude);
    if signed {
      assert Encoded(v, signed)[1..] == magnitude;
    }
  }

  /** The byte strings that toBytes can produce. */
  predicate Canonical(data: seq<Byte>, signed: bool) {
    if signed then
      && data != []
      && (data[0] == SIGN_PLUS || (data[0] == SIGN_MINUS && |data| > 1))
      && (|data| > 1 ==> data[1] != 0)
    else
      data != [] && data[0] != 0
  }

  /** Reading and writing back is the identity on exactly the canonical strings. */
  lemma CanonicalRoundTrip(data: seq<Byte>, signed: bool)
    requires data != []
    ensures Encoded(Decoded(data, signed).value, signed) == data <==> Canonical(data, signed)
  {
    var digits := if signed then data[1..] else data;
    var n := Value(digits);
    var v := Decoded(data, signed).value;
    assert Abs(v) == n;
    MinimalString(digits);
    BigEndianOfValue(digits);
    ByteLengthMinimal(n);
    ValueBound(digits);
    var magnitude := BigEndian(n, ByteLength(n));
    assert magnitude == digits <==> ByteLength(n) == |digits|;
    if signed {
      assert data == [data[0]] + digits;
      assert Encoded(v, signed)[1..] == magnitude;
      assert digits != [] && digits[0] != 0 ==> n > 0;
    }
  }

  class OutputBuffer {
    var data: array<Byte>
    var len: nat

    constructor (size: nat)
      ensures fresh(data) && data.Length == size && len == size
    {
      data := new Byte[size](_ => 0);
      len := size;
    }
  }

  class BigNum {
    var bn: int

    constructor (v: int)
      ensures bn == v
    {
      bn := v;
    }

    method FromBytes(data: seq<Byte>, signed: bool) returns (r: Result<()>)
      modifies this
      ensures match Decoded(data, signed)
              case Ok(v) => r == Ok(()) && bn == v
              case Err(e) => r == Err(e) && bn == old(bn)
      ensures data != [] && signed ==> bn == if data[0] == 0xff then 0 - Value(data[1..]) else Value(data[1..])
    {
      if |data| == 0 {
        return Err(EmptyBigNumData);
      }
      if signed {
        var negative := data[0] == 0xff;
        FromBigEndianBytes(data[1..], negative);
        return Ok(());
      }
      FromBigEndianBytes(data, false);
      return Ok(());
    }

    method FromBigEndianBytes(digits: seq<Byte>, negative: bool)
      modifies this
      ensures bn == if negative then 0 - Value(digits) else Value(digits)
    {
      bn := 0;
      var i := 0;
      while i < |digits|
        invariant 0 <= i <= |digits|
        invariant bn == Value(digits[..i])
      {
        assert digits[..i + 1][..i] == digits[..i];
        bn := bn * 256 + digits[i];
        i := i + 1;
      }
      assert digits[..i] == digits;
      if negative {
        bn := -bn;
      }
    }

    method ToOutputBuffer(out: OutputBuffer, signed: bool) returns (r: Result<()>)
      requires out.len <= out.data.Length
      modifies out, out.data
      ensures out.data == old(out.data)
      ensures if old(out.len) < |Encoded(bn, signed)|
              then r == Err(NotEnoughBuffer) && out.len == old(out.len) && out.data[..] == old(out.data[..])
              else r == Ok(()) && out.len == |Encoded(bn, signed)| && out.len <= out.data.Length
                   && out.data[..] == Encoded(bn, signed) + old(out.data[..])[out.len..]
    {
      var magnitude := BigEndian(Abs(bn), ByteLength(Abs(bn)));
      var offset := if signed then 1 else 0;
      var size := |magnitude| + offset;
      if out.len < size {
        return Err(NotEnoughBuffer);
      }
      out.len := size;
      if signed {
        out.data[0] := if bn < 0 then 0xff else 0x00;
      }
      forall i | 0 <= i < |magnitude| {
        out.data[offset + i] := magnitude[i];
      }
      assert out.data[..] == Encoded(bn, signed) + old(out.data[..])[size..];
      return Ok(());
    }

    method ToBytes(signed: bool) returns (output: seq<Byte>)
      ensures output == Encoded(bn, signed)
    {
      var bytesLen := ByteLength(Abs(bn));
      var buffer := new OutputBuffer(if signed then bytesLen + 1 else bytesLen);
      var r := ToOutputBuffer(buffer, signed);
      output := buffer.data[..buffer.len];
    }

    // The arithmetic wrappers. `result` may be the receiver itself.

    method Add(v: BigNum) returns (result: BigNum)
      ensures fresh(result) && result.bn == bn + v.bn
    {
      result := new BigNum(bn + v.bn);
    }

    method Sub(v: BigNum) returns (result: BigNum)
      ensures fresh(result) && result.bn == bn - v.bn
    {
      result := new BigNum(bn - v.bn);
    }

    method Mul(result: BigNum, v: BigNum)
      modifies result
      ensures result.bn == old(bn) * old(v.bn)
    {
      result.bn := bn * v.bn;
    }

    /** BN_div on non-negative operands. */
    method Div(result: BigNum, q: BigNum)
      requires bn >= 0 && q.bn > 0
      modifies result
      ensures result.bn == old(bn) / old(q.bn)
    {
      result.bn := bn / q.bn;
    }

    /** BN_mod_add_quick: one conditional subtraction, right only on reduced operands. */
    method ModAdd(v: BigNum, m: BigNum) returns (result: BigNum)
      requires 0 <= bn < m.bn && 0 <= v.bn < m.bn
      ensures fresh(result) && result.bn == (bn + v.bn) % m.bn
    {
      var sum := bn + v.bn;
      result := new BigNum(if sum < m.bn then sum else sum - m.bn);
      DivModUnique(sum, if sum < m.bn then 0 else 1, result.bn, m.bn);
    }

    method ModSub(result: BigNum, v: BigNum, m: BigNum)
      requires m.bn > 0
      modifies result
      ensures result.bn == (old(bn) - old(v.bn)) % old(m.bn)
    {
      result.bn := (bn - v.bn) % m.bn;
    }

    method ModMul(result: BigNum, v: BigNum, m: BigNum)
      requires m.bn > 0
      modifies result
      ensures result.bn == (old(bn) * old(v.bn)) % old(m.bn)
    {
      result.bn := (bn * v.bn) % m.bn;
    }

    method LeftShift(result: BigNum, bits: nat)
      modifies result
      ensures result.bn == old(bn) * Pow2(bits)
    {
      result.bn := bn * Pow2(bits);
    }
  }
}
