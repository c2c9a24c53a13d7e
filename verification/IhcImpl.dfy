/** The methods of cpp/wedpr-crypto/ppc-homo/ihc/IhcImpl.cpp over shared big numbers. None of them
    modifies a number that existed before the call: the only writes go to numbers allocated inside,
    although `lastRoundV = v; v = tmp;` passes storage from one variable to the next. */
module IhcImplementation {
  import opened Arith
  import opened Outcome
  import opened BigNumber
  import opened SignedCodec
  import Ihc

  datatype Cipher = Cipher(c1: BigNum, c2: BigNum)

  ghost function Contents(c: Cipher): Ihc.State
    reads c.c1, c.c2
  {
    Ihc.State(c.c1.bn, c.c2.bn)
  }

  datatype ArithmeticType = ADD | SUB

  /** The first nonzero draw from [0, N); None when the draws run out first. */
  method GenerateKey(codec: SignedNumberCodec, draws: seq<int>) returns (key: int, found: bool)
    requires codec.Valid() && forall i :: 0 <= i < |draws| ==> 0 <= draws[i] < codec.n.bn
    ensures found <==> exists i :: 0 <= i < |draws| && draws[i] != 0
    ensures found ==> 0 < key < codec.n.bn
    ensures found ==> exists i :: 0 <= i < |draws| && draws[i] == key && forall j :: 0 <= j < i ==> draws[j] == 0
    ensures found ==> Decoded(Encoded(key, false), false) == Ok(key)
  {
    var i := 0;
    key, found := 0, false;
    while i < |draws| && !found
      invariant 0 <= i <= |draws|
      invariant !found ==> forall j :: 0 <= j < i ==> draws[j] == 0
      invariant found ==> 0 < i && key == draws[i - 1] != 0
      invariant found ==> forall j :: 0 <= j < i - 1 ==> draws[j] == 0
    {
      key := draws[i];
      found := key != 0;
      i := i + 1;
    }
    RoundTrip(key, false);
  }

  /** `rounds` rounds from (v, last); the loop that encryption and decryption share. */
  method RunRounds(codec: SignedNumberCodec, key: BigNum, rounds: nat, v0: BigNum, last0: BigNum)
    returns (v: BigNum, lastRoundV: BigNum)
    requires codec.Valid()
    ensures Ihc.State(v.bn, lastRoundV.bn)
            == Ihc.Rounds(codec.n.bn, key.bn, rounds, Ihc.State(v0.bn, last0.bn))
  {
    v, lastRoundV := v0, last0;
    var i := 0;
    while i < rounds
      invariant 0 <= i <= rounds
      invariant Ihc.State(v.bn, lastRoundV.bn)
                == Ihc.Rounds(codec.n.bn, key.bn, i, Ihc.State(v0.bn, last0.bn))
    {
      ghost var before := Ihc.State(v.bn, lastRoundV.bn);
      var tmp := new BigNum(0);
      v.ModMul(tmp, key, codec.n);
      tmp.ModSub(tmp, lastRoundV, codec.n);
      assert Ihc.State(tmp.bn, v.bn) == Ihc.Round(codec.n.bn, key.bn, before);
      lastRoundV := v;
      v := tmp;
      i := i + 1;
    }
  }

  method Encrypt(codec: SignedNumberCodec, rounds: nat, key: BigNum, value: BigNum, nonce: int)
    returns (r: Result<Cipher>)
    requires codec.Valid()
    ensures r.Ok? ==> Ihc.Encrypt(codec.n.bn, rounds, key.bn, value.bn, nonce) == Ok(Contents(r.value))
    ensures r.Err? ==> Ihc.Encrypt(codec.n.bn, rounds, key.bn, value.bn, nonce) == Err(r.error)
  {
    var encoded := codec.EncodeNumber(value);
    if encoded.Err? {
      return Err(encoded.error);
    }
    var lastRoundV := new BigNum(nonce);
    var v;
    v, lastRoundV := RunRounds(codec, key, rounds, encoded.value, lastRoundV);
    return Ok(Cipher(v, lastRoundV));
  }

  method Decrypt(codec: SignedNumberCodec, rounds: nat, key: BigNum, cipher: Cipher)
    returns (r: Result<BigNum>)
    requires codec.Valid()
    ensures r.Ok? ==> Ihc.Decrypt(codec.n.bn, rounds, key.bn, Contents(cipher)) == Ok(r.value.bn)
    ensures r.Err? ==> Ihc.Decrypt(codec.n.bn, rounds, key.bn, Contents(cipher)) == Err(r.error)
  {
    var lastRoundV, v := cipher.c1, cipher.c2;
    v, lastRoundV := RunRounds(codec, key, if rounds == 0 then 0 else rounds - 1, v, lastRoundV);
    r := codec.DecodeNumber(v);
  }

  /** modAdd is a quick addition, so ADD needs reduced components; Homomorphism shows that every
      ciphertext of an expression has them. */
  method Arithmetic(codec: SignedNumberCodec, left: Cipher, right: Cipher, op: ArithmeticType)
    returns (result: Cipher)
    requires codec.Valid()
    requires op.ADD? ==> Ihc.Reduced(codec.n.bn, Contents(left)) && Ihc.Reduced(codec.n.bn, Contents(right))
    ensures fresh(result.c1) && fresh(result.c2)
    ensures Contents(result) ==
            match op
            case ADD => Ihc.Add(codec.n.bn, Contents(left), Contents(right))
            case SUB => Ihc.Sub(codec.n.bn, Contents(left), Contents(right))
  {
    var resultV := new BigNum(0);
    var resultLastRoundV := new BigNum(0);
    match op {
      case ADD =>
        resultV := left.c1.ModAdd(right.c1, codec.n);
        resultLastRoundV := left.c2.ModAdd(right.c2, codec.n);
      case SUB =>
        left.c1.ModSub(resultV, right.c1, codec.n);
        left.c2.ModSub(resultLastRoundV, right.c2, codec.n);
    }
    result := Cipher(resultV, resultLastRoundV);
  }

  method ScalaMul(codec: SignedNumberCodec, value: BigNum, cipher: Cipher) returns (result: Cipher)
    requires codec.Valid()
    ensures fresh(result.c1) && fresh(result.c2)
    ensures Contents(result) == Ihc.ScalaMul(codec.n.bn, value.bn, Contents(cipher))
  {
    var resultV := new BigNum(0);
    var resultLastRoundV := new BigNum(0);
    cipher.c1.ModMul(resultV, value, codec.n);
    cipher.c2.ModMul(resultLastRoundV, value, codec.n);
    assert cipher.c1.bn * value.bn == value.bn * cipher.c1.bn;
    assert cipher.c2.bn * value.bn == value.bn * cipher.c2.bn;
    result := Cipher(resultV, resultLastRoundV);
  }
}
