/** python/ppc_common/ppc_crypto/ihc_cipher.py: the same cipher, but sums and products of
    ciphertexts are never reduced. */
module PythonIhc {
  import opened Arith
  import opened Bytes
  import opened Outcome
  import Ihc

  /** The two range bounds come out of a floating-point division by three; only their order matters. */
  datatype NumberCodec = NumberCodec(maxMod: nat, nonNegativeRange: nat, negativeRange: nat) {
    predicate Valid() { 0 < maxMod && nonNegativeRange < maxMod && negativeRange < maxMod }

    function Encode(value: int): Result<nat>
      requires Valid()
    {
      if value > 0 then
        if value > nonNegativeRange then Err(ValueOutOfRange) else Ok(value)
      else Ok(value % maxMod)
    }

    function Decode(value: int): int {
      if value > negativeRange then value - maxMod else value
    }
  }

  function Round(n: nat, key: int, s: Ihc.State): Ihc.State
    requires n > 0
  {
    Ihc.State((key * s.v - s.last) % n, s.v)
  }

  function Rounds(n: nat, key: int, count: nat, s: Ihc.State): Ihc.State
    requires n > 0
  {
    if count == 0 then s else Round(n, key, Rounds(n, key, count - 1, s))
  }

  function DecryptResidue(codec: NumberCodec, rounds: nat, key: int, c: Ihc.State): int
    requires codec.Valid()
  {
    Rounds(codec.maxMod, key, if rounds == 0 then 0 else rounds - 1, Ihc.Swap(c)).v
  }

  method Encrypt(codec: NumberCodec, rounds: nat, key: int, number: int, randomU: nat)
    returns (r: Result<Ihc.State>)
    requires codec.Valid()
    ensures r == Eval(codec, rounds, key, Ihc.Enc(number, randomU))
  {
    var encoded := codec.Encode(number);
    if encoded.Err? {
      return Err(encoded.error);
    }
    var xThis: int, xLast: int := encoded.value, randomU;
    for i := 0 to rounds
      invariant Ihc.State(xThis, xLast)
                == Rounds(codec.maxMod, key, i, Ihc.State(encoded.value, randomU))
    {
      var xTmp := (key * xThis - xLast) % codec.maxMod;
      xLast := xThis;
      xThis := xTmp;
    }
    return Ok(Ihc.State(xThis, xLast));
  }

  method Decrypt(codec: NumberCodec, rounds: nat, key: int, c: Ihc.State) returns (r: int)
    requires codec.Valid()
    ensures r == codec.Decode(DecryptResidue(codec, rounds, key, c))
  {
    var xThis, xLast := c.last, c.v;
    for i := 0 to if rounds == 0 then 0 else rounds - 1
      invariant Ihc.State(xThis, xLast) == Rounds(codec.maxMod, key, i, Ihc.Swap(c))
    {
      var xTmp := (key * xThis - xLast) % codec.maxMod;
      xLast := xThis;
      xThis := xTmp;
    }
    r := codec.Decode(xThis);
  }

  /** The class overloads + and *, and has no subtraction. */
  predicate Additive(e: Ihc.Expr) {
    match e
    case Enc(_, nonce) => nonce >= 0
    case Sum(l, r) => Additive(l) && Additive(r)
    case Diff(_, _) => false
    case Times(_, a) => Additive(a)
  }

  function Eval(codec: NumberCodec, rounds: nat, key: int, e: Ihc.Expr): Result<Ihc.State>
    requires codec.Valid() && Additive(e)
  {
    match e
    case Enc(m, nonce) =>
      (match codec.Encode(m)
       case Err(x) => Err(x)
       case Ok(v) => Ok(Rounds(codec.maxMod, key, rounds, Ihc.State(v, nonce))))
    case Sum(l, r) =>
      (match (Eval(codec, rounds, key, l), Eval(codec, rounds, key, r))
       case (Err(x), _) => Err(x)
       case (_, Err(x)) => Err(x)
       case (Ok(c), Ok(d)) => Ok(Ihc.Plus(c, d)))
    case Times(k, a) =>
      (match (codec.Encode(k), Eval(codec, rounds, key, a))
       case (_, Err(x)) => Err(x)
       case (Err(x), _) => Err(x)
       case (Ok(v), Ok(c)) => Ok(Ihc.Scale(v, c)))
  }

  lemma {:induction false} RoundsAgree(n: nat, key: int, count: nat, s: Ihc.State)
    requires n > 0
    ensures Rounds(n, key, count, s) == Ihc.Rounds(n, key, count, s)
  {
    if count == 0 {
    } else {
      RoundsAgree(n, key, count - 1, s);
      var t := Rounds(n, key, count - 1, s);
      assert key * t.v == t.v * key;
      CongMod(t.v * key, n);
      CongSub((t.v * key) % n, t.v * key, t.last, t.last, n);
    }
  }

  /** Which numbers raise: exactly those above the range, however far a number is below zero. */
  lemma {:induction false} EncodeExact(codec: NumberCodec, v: int)
    requires codec.Valid()
    ensures codec.Encode(v) == Err(ValueOutOfRange) <==> v > codec.nonNegativeRange
    ensures v <= codec.nonNegativeRange ==>
              codec.Encode(v).Ok? && codec.Encode(v).value < codec.maxMod && Cong(codec.Encode(v).value, v, codec.maxMod)
  {
    CongMod(v, codec.maxMod);
  }

  /** Every plaintext and every scalar is at most the bound. */
  predicate InRange(bound: nat, e: Ihc.Expr) {
    match e
    case Enc(m, _) => m <= bound
    case Sum(l, r) => InRange(bound, l) && InRange(bound, r)
    case Diff(l, r) => InRange(bound, l) && InRange(bound, r)
    case Times(k, a) => k <= bound && InRange(bound, a)
  }

  lemma {:induction false} EvalSucceeds(codec: NumberCodec, rounds: nat, key: int, e: Ihc.Expr)
    requires codec.Valid() && Additive(e)
    ensures Eval(codec, rounds, key, e).Ok? <==> InRange(codec.nonNegativeRange, e)
  {
    match e
    case Enc(m, _) => EncodeExact(codec, m);
    case Sum(l, r) => EvalSucceeds(codec, rounds, key, l); EvalSucceeds(codec, rounds, key, r);
    case Times(k, a) => EncodeExact(codec, k); EvalSucceeds(codec, rounds, key, a);
  }

  lemma EncodeCong(codec: NumberCodec, v: int)
    requires codec.Valid() && codec.Encode(v).Ok?
    ensures Cong(codec.Encode(v).value, v, codec.maxMod)
  {
    CongMod(v, codec.maxMod);
  }

  lemma StartTracks(codec: NumberCodec, rounds: nat, key: int, m: int, nonce: nat)
    requires codec.Valid() && codec.Encode(m).Ok?
    ensures var c := Rounds(codec.maxMod, key, rounds, Ihc.State(codec.Encode(m).value, nonce));
            && c.v >= 0 && c.last >= 0
            && Ihc.CongState(c, Ihc.Run(key, rounds, Ihc.State(m, nonce)), codec.maxMod)
  {
    var s := Ihc.State(codec.Encode(m).value, nonce);
    EncodeCong(codec, m);
    RoundsAgree(codec.maxMod, key, rounds, s);
    if rounds > 0 {
      Ihc.RoundsReduced(codec.maxMod, key, rounds, s);
    }
    Ihc.RoundsCong(codec.maxMod, key, rounds, s, Ihc.State(m, nonce));
  }

  lemma {:induction false} EvalTracksOrigin(codec: NumberCodec, rounds: nat, key: int, e: Ihc.Expr)
    requires codec.Valid() && Additive(e) && Eval(codec, rounds, key, e).Ok?
    ensures var c := Eval(codec, rounds, key, e).value;
            && c.v >= 0 && c.last >= 0
            && Ihc.CongState(c, Ihc.Run(key, rounds, Ihc.Origin(e)), codec.maxMod)
  {
    var n := codec.maxMod;
    match e
    case Enc(m, nonce) =>
      StartTracks(codec, rounds, key, m, nonce);
    case Sum(l, r) =>
      EvalTracksOrigin(codec, rounds, key, l);
      EvalTracksOrigin(codec, rounds, key, r);
      var c, d := Eval(codec, rounds, key, l).value, Eval(codec, rounds, key, r).value;
      Ihc.CongPlus(c, Ihc.Run(key, rounds, Ihc.Origin(l)), d, Ihc.Run(key, rounds, Ihc.Origin(r)), n);
      Ihc.RunPlus(key, rounds, Ihc.Origin(l), Ihc.Origin(r));
    case Times(k, a) =>
      EvalTracksOrigin(codec, rounds, key, a);
      var v, c := codec.Encode(k).value, Eval(codec, rounds, key, a).value;
      EncodeCong(codec, k);
      Ihc.CongScale(v, k, c, Ihc.Run(key, rounds, Ihc.Origin(a)), n);
      Ihc.RunScale(key, rounds, k, Ihc.Origin(a));
  }

  /** Nothing is reduced: a sum adds the components as integers, and a scalar multiplies them by itself if it
      is not negative, by its residue otherwise. */
  lemma {:induction false} NeverReduced(codec: NumberCodec, rounds: nat, key: int, l: Ihc.Expr, r: Ihc.Expr, k: int)
    requires codec.Valid() && Additive(l) && Additive(r)
    requires Eval(codec, rounds, key, l).Ok? && Eval(codec, rounds, key, r).Ok? && k <= codec.nonNegativeRange
    ensures var c, d := Eval(codec, rounds, key, l).value, Eval(codec, rounds, key, r).value;
            var f := if k >= 0 then k else k % codec.maxMod;
            && Eval(codec, rounds, key, Ihc.Sum(l, r)) == Ok(Ihc.State(c.v + d.v, c.last + d.last))
            && Eval(codec, rounds, key, Ihc.Times(k, l)) == Ok(Ihc.State(f * c.v, f * c.last))
  {
    EncodeExact(codec, k);
    if k >= 0 {
      DivModUnique(k, 0, k, codec.maxMod);
    }
  }

  /** For the same key, nonces and expression the unreduced ciphertext is congruent to the reduced
      one, and both decryptions reach the same number before decoding, except that with a single
      round nothing reduces an over-large component. */
  lemma RefinesReduced(codec: NumberCodec, rounds: nat, key: int, e: Ihc.Expr)
    requires codec.Valid() && rounds > 0 && Additive(e)
    requires Eval(codec, rounds, key, e).Ok? && Ihc.Eval(codec.maxMod, rounds, key, e).Ok?
    ensures var c, d := Eval(codec, rounds, key, e).value, Ihc.Eval(codec.maxMod, rounds, key, e).value;
            && Ihc.CongState(c, d, codec.maxMod)
            && (DecryptResidue(codec, rounds, key, c) == Ihc.DecryptResidue(codec.maxMod, rounds, key, d)
                <==> rounds >= 2 || c.last < codec.maxMod)
  {
    var n, origin := codec.maxMod, Ihc.Origin(e);
    var c, d := Eval(codec, rounds, key, e).value, Ihc.Eval(n, rounds, key, e).value;
    EvalTracksOrigin(codec, rounds, key, e);
    Ihc.EvalTracksOrigin(n, rounds, key, e);
    Ihc.DecryptOrigin(n, rounds, key, d, origin);
    DecryptUnreduced(codec, rounds, key, c, origin);
  }

  /** It happens: with one round and modulus 4, -1 + -1 + 1 reaches 7 instead of 3, and a result that the
      decoding window covers comes back as 3. */
  lemma {:induction false} OneRoundFails(key: int)
    ensures var codec := NumberCodec(4, 1, 2);
            var e := Ihc.Sum(Ihc.Sum(Ihc.Enc(-1, 0), Ihc.Enc(-1, 0)), Ihc.Enc(1, 0));
            && codec.Valid() && Additive(e) && Eval(codec, 1, key, e).Ok?
            && codec.negativeRange - codec.maxMod < Ihc.Plain(e) <= codec.negativeRange && Ihc.Plain(e) == -1
            && codec.Decode(DecryptResidue(codec, 1, key, Eval(codec, 1, key, e).value)) == 3
  {
    var codec := NumberCodec(4, 1, 2);
    assert codec.Encode(-1) == Ok(3) && codec.Encode(1) == Ok(1);
    assert Rounds(4, key, 1, Ihc.State(3, 0)) == Round(4, key, Rounds(4, key, 0, Ihc.State(3, 0)));
    assert Rounds(4, key, 1, Ihc.State(1, 0)) == Round(4, key, Rounds(4, key, 0, Ihc.State(1, 0)));
    var l := Ihc.Sum(Ihc.Enc(-1, 0), Ihc.Enc(-1, 0));
    assert Eval(codec, 1, key, l).Ok? && Eval(codec, 1, key, l).value.last == 6;
  }

  lemma DecryptUnreduced(codec: NumberCodec, rounds: nat, key: int, c: Ihc.State, origin: Ihc.State)
    requires codec.Valid() && rounds > 0 && c.last >= 0
    requires Ihc.CongState(c, Ihc.Run(key, rounds, origin), codec.maxMod)
    ensures DecryptResidue(codec, rounds, key, c) == origin.v % codec.maxMod
            <==> rounds >= 2 || c.last < codec.maxMod
  {
    var n := codec.maxMod;
    var start := Ihc.Swap(Ihc.Run(key, rounds, origin));
    Ihc.RunBack(key, rounds, origin);
    var back := Ihc.Run(key, rounds - 1, start);
    assert Ihc.Step(key, back) == Ihc.Swap(origin);
    Ihc.RoundsCong(n, key, rounds - 1, Ihc.Swap(c), start);
    RoundsAgree(n, key, rounds - 1, Ihc.Swap(c));
    var x := DecryptResidue(codec, rounds, key, c);
    assert Cong(x, origin.v, n);
    if 0 <= x < n {
      DivModUnique(x, 0, x, n);
    }
  }

  /** With two rounds or more, any expression decrypts to its plain value exactly when that lies in
      the window that decoding covers. */
  lemma Homomorphism(codec: NumberCodec, rounds: nat, key: int, e: Ihc.Expr)
    requires codec.Valid() && rounds >= 2 && Additive(e) && Eval(codec, rounds, key, e).Ok?
    ensures codec.Decode(DecryptResidue(codec, rounds, key, Eval(codec, rounds, key, e).value)) == Ihc.Plain(e)
            <==> codec.negativeRange - codec.maxMod < Ihc.Plain(e) <= codec.negativeRange
  {
    var n, m := codec.maxMod, Ihc.Plain(e);
    EvalTracksOrigin(codec, rounds, key, e);
    DecryptUnreduced(codec, rounds, key, Eval(codec, rounds, key, e).value, Ihc.Origin(e));
    Ihc.OriginIsPlain(e);
    if 0 <= m < n {
      DivModUnique(m, 0, m, n);
    } else if 0 - n <= m < 0 {
      DivModUnique(m, -1, m + n, n);
    }
  }

  // ---------------------------------------------------------------------------------------------
  // The byte format: two 32-bit lengths, then both components
  // ---------------------------------------------------------------------------------------------

  const MAX_LENGTH: nat := 0x1_0000_0000

  function Serialize(c: Ihc.State): Result<seq<Byte>> {
    if c.v < 0 || c.last < 0 then Err(NegativeComponent)
    else
      var left, right := ByteLength(c.v), ByteLength(c.last);
      if left >= MAX_LENGTH || right >= MAX_LENGTH then Err(LengthOverflow)
      else Ok(BigEndian(left, 4) + BigEndian(right, 4) + BigEndian(c.v, left) + BigEndian(c.last, right))
  }

  /** A Python slice: bounds beyond the end are cut off. */
  function Slice(s: seq<Byte>, lo: nat, hi: nat): seq<Byte>
    requires lo <= hi
  {
    if hi <= |s| then s[lo..hi] else if lo <= |s| then s[lo..] else []
  }

  function Deserialize(data: seq<Byte>): Result<Ihc.State> {
    if |data| < 8 then Err(TruncatedHeader)
    else
      var left, right := Value(data[0..4]), Value(data[4..8]);
      Ok(Ihc.State(Value(Slice(data, 8, 8 + left)), Value(Slice(data, 8 + left, 8 + left + right))))
  }

  /** Four pieces in a row are cut out again at their lengths. */
  lemma CutOut(h1: seq<Byte>, h2: seq<Byte>, a: seq<Byte>, b: seq<Byte>, tail: seq<Byte>)
    requires |h1| == 4 == |h2|
    ensures var data := h1 + h2 + a + b + tail;
            && |data| >= 8 && data[0..4] == h1 && data[4..8] == h2
            && Slice(data, 8, 8 + |a|) == a && Slice(data, 8 + |a|, 8 + |a| + |b|) == b
  {
  }

  /** Reading back what was written returns both components, whatever follows in the buffer. */
  lemma WireRoundTrip(c: Ihc.State, tail: seq<Byte>)
    requires Serialize(c).Ok?
    ensures Deserialize(Serialize(c).value + tail) == Ok(c)
  {
    var left, right := ByteLength(c.v), ByteLength(c.last);
    HeaderField(left);
    HeaderField(right);
    BodyField(c.v);
    BodyField(c.last);
    ReadPieces(BigEndian(left, 4), BigEndian(right, 4), BigEndian(c.v, left), BigEndian(c.last, right), tail);
  }

  lemma ReadPieces(h1: seq<Byte>, h2: seq<Byte>, a: seq<Byte>, b: seq<Byte>, tail: seq<Byte>)
    requires |h1| == 4 == |h2| && Value(h1) == |a| && Value(h2) == |b|
    ensures Deserialize(h1 + h2 + a + b + tail) == Ok(Ihc.State(Value(a), Value(b)))
  {
    CutOut(h1, h2, a, b, tail);
  }

  lemma HeaderField(length: nat)
    requires length < MAX_LENGTH
    ensures Value(BigEndian(length, 4)) == length
  {
    PowBytes(4);
    assert Pow2(32) == MAX_LENGTH by {
      PowAdd(2, 16, 16);
      PowAdd(2, 8, 8);
      PowAdd(2, 4, 4);
    }
    ValueOfBigEndian(length, 4);
  }

  lemma BodyField(n: nat)
    ensures Value(BigEndian(n, ByteLength(n))) == n
  {
    ByteLengthMinimal(n);
    ValueOfBigEndian(n, ByteLength(n));
  }

  /** The layout: two four-byte lengths, then the two components, in that order and in as few bytes as
      hold them; what cannot be written. */
  lemma {:induction false} WireLayout(c: Ihc.State)
    ensures Serialize(c) == Err(NegativeComponent) <==> c.v < 0 || c.last < 0
    ensures Serialize(c).Ok? ==>
              var data := Serialize(c).value;
              && |data| >= 8 && |data| == 8 + Value(data[0..4]) + Value(data[4..8])
              && Value(data[8..8 + Value(data[0..4])]) == c.v && Value(data[8 + Value(data[0..4])..]) == c.last
              && Value(data[0..4]) == ByteLength(c.v) && Value(data[4..8]) == ByteLength(c.last)
  {
    if Serialize(c).Ok? {
      var left, right := ByteLength(c.v), ByteLength(c.last);
      HeaderField(left);
      HeaderField(right);
      BodyField(c.v);
      BodyField(c.last);
      CutOut(BigEndian(left, 4), BigEndian(right, 4), BigEndian(c.v, left), BigEndian(c.last, right), []);
      var data := Serialize(c).value;
      assert data + [] == data;
      assert data[8 + left..] == data[8 + left..8 + left + right];
    }
  }

  /** Any eight bytes or more are read, a truncated body as far as it goes. */
  lemma {:induction false} ReadsTruncated(data: seq<Byte>)
    ensures |data| < 8 <==> Deserialize(data) == Err(TruncatedHeader)
    ensures |data| >= 8 && |data| <= 8 + Value(data[0..4]) ==>
              Deserialize(data) == Ok(Ihc.State(Value(data[8..]), 0))
  {
    if |data| >= 8 {
      var left, right := Value(data[0..4]), Value(data[4..8]);
      if |data| <= 8 + left {
        assert Slice(data, 8, 8 + left) == data[8..];
        assert Slice(data, 8 + left, 8 + left + right) == [];
      }
    }
  }

  /** Two writings never run into each other: equal streams start with equal ciphertexts. */
  lemma WireUnambiguous(c: Ihc.State, d: Ihc.State, tail: seq<Byte>, rest: seq<Byte>)
    requires Serialize(c).Ok? && Serialize(d).Ok?
    requires Serialize(c).value + tail == Serialize(d).value + rest
    ensures c == d && tail == rest
  {
    WireRoundTrip(c, tail);
    WireRoundTrip(d, rest);
    var k := |Serialize(c).value|;
    assert (Serialize(c).value + tail)[k..] == tail;
    assert (Serialize(d).value + rest)[k..] == rest;
  }
}
