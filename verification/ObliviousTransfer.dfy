/** cpp/wedpr-computing/ppc-pir/src/BaseOT.cpp: a client obtains the record of one id without naming
    it. The group of points is written additively as the residues modulo its prime order. */
module ObliviousTransfer {
  import opened Arith
  import opened Bytes
  import opened Outcome
  import opened LineScanner
  import opened NumberTheory

  // ---------------------------------------------------------------------------------------------
  // The group
  // ---------------------------------------------------------------------------------------------

  /** The curve, the hash to scalars and AES, by their algebraic contracts. */
  datatype Env = Env(q: nat, point: int -> Text, hash: Text -> int,
                     seal: (Text, Text) -> Text, unseal: (Text, Text) -> Text) {
    ghost predicate Valid() {
      && Prime(q)
      && (forall x, y :: 0 <= x < q && 0 <= y < q && point(x) == point(y) ==> x == y)
      && (forall t :: 0 <= hash(t) < q)
      && (forall k, m :: unseal(k, seal(k, m)) == m)
    }

    function MulGenerator(k: int): int requires q > 0 { k % q }
    function Multiply(p: int, k: int): int requires q > 0 { (p * k) % q }
    function Add(p: int, r: int): int requires q > 0 { (p + r) % q }
  }

  // ---------------------------------------------------------------------------------------------
  // The three messages
  // ---------------------------------------------------------------------------------------------

  datatype SenderMessage = SenderMessage(pointX: int, pointY: int, pointZ: int, blindingB: int, prefix: Text)

  function SenderGenerateCipher(env: Env, choice: Text, order: nat, a: int, b: int): SenderMessage
    requires env.q > 0 && order <= |choice|
  {
    var c := (a * b) % env.q;
    SenderMessage(env.MulGenerator(a), env.MulGenerator(b),
                  env.MulGenerator((c - env.hash(choice)) % env.q), b, choice[..order])
  }

  /** The message in terms of the random scalars: X = a, Y = b, and Z + H(id) = ab in the group. */
  lemma {:induction false} SenderPoints(env: Env, choice: Text, order: nat, a: int, b: int)
    requires env.q > 0 && order <= |choice|
    ensures var m := SenderGenerateCipher(env, choice, order, a, b);
            && Cong(m.pointX, a, env.q) && Cong(m.pointY, b, env.q)
            && Cong(m.pointZ + env.hash(choice), a * b, env.q)
            && m.blindingB == b && |m.prefix| == order && m.prefix <= choice
  {
    var q, h := env.q, env.hash(choice);
    var c := (a * b) % q;
    CongMod(a, q);
    CongMod(b, q);
    CongMod(a * b, q);
    CongMod(c - h, q);
    CongMod((c - h) % q, q);
    CongAdd(((c - h) % q) % q, c - h, h, h, q);
  }

  /** The random choices for one row. */
  datatype Draw = Draw(r: int, s: int, randomKey: Text)

  function PointW(env: Env, x: int, draw: Draw): int
    requires env.q > 0
  {
    env.Add(env.Multiply(x, draw.s), env.MulGenerator(draw.r))
  }

  function ServerKey(env: Env, y: int, z: int, id: Text, draw: Draw): int
    requires env.q > 0
  {
    env.Add(env.Multiply(env.Add(z, env.MulGenerator(env.hash(id))), draw.s), env.Multiply(y, draw.r))
  }

  function ClientKey(env: Env, w: int, b: int): int
    requires env.q > 0
  {
    env.Multiply(w, b)
  }

  /** The client's key for a row is the server's exactly when the row's id hashes to the queried scalar. */
  lemma {:induction false} KeysAgree(env: Env, choice: Text, order: nat, a: int, b: int, id: Text, draw: Draw)
    requires env.Valid() && order <= |choice| && draw.s % env.q != 0
    ensures var m := SenderGenerateCipher(env, choice, order, a, b);
            ServerKey(env, m.pointY, m.pointZ, id, draw) == ClientKey(env, PointW(env, m.pointX, draw), b)
            <==> env.hash(id) == env.hash(choice)
  {
    var q, r, s, h, h0 := env.q, draw.r, draw.s, env.hash(id), env.hash(choice);
    var m := SenderGenerateCipher(env, choice, order, a, b);
    ServerKeyValue(env, a * b - h0, b, m.pointZ, m.pointY, id, draw) by {
      CongMod(a * b, q);
      CongSub((a * b) % q, a * b, h0, h0, q);
      CongMod((a * b) % q - h0, q);
      CongMod(((a * b) % q - h0) % q, q);
      CongMod(b, q);
    }
    ClientKeyValue(env, a, m.pointX, b, draw) by { CongMod(a, q); }
    var server, client := (a * b - h0 + h) * s + b * r, (a * s + r) * b;
    assert server - client == s * (h - h0) by { Expand(a, b, h0, h, s, r); }
    Euclid(q, s, h - h0);
    if server % q == client % q {
      CongSub(server, client, client, client, q);
    } else if (s * (h - h0)) % q == 0 {
      CongAdd(s * (h - h0), 0, client, client, q);
    }
    if h >= h0 {
      DivModUnique(h - h0, 0, h - h0, q);
    } else {
      DivModUnique(h - h0, -1, h - h0 + q, q);
    }
  }

  lemma Expand(a: int, b: int, h0: int, h: int, s: int, r: int)
    ensures (a * b - h0 + h) * s + b * r - (a * s + r) * b == s * (h - h0)
  {
    assert (a * b - h0 + h) * s == (a * b) * s + (h - h0) * s;
    assert (a * s + r) * b == (a * s) * b + r * b;
    assert (a * b) * s == (a * s) * b;
  }

  lemma {:induction false} ServerKeyValue(env: Env, z0: int, y0: int, z: int, y: int, id: Text, draw: Draw)
    requires env.q > 0 && Cong(z, z0, env.q) && Cong(y, y0, env.q)
    ensures ServerKey(env, y, z, id, draw) == ((z0 + env.hash(id)) * draw.s + y0 * draw.r) % env.q
  {
    var q, h, r, s := env.q, env.hash(id), draw.r, draw.s;
    CongMod(h, q);
    CongAdd(z, z0, h % q, h, q);
    CongMod(z + h % q, q);
    CongMul((z + h % q) % q, z0 + h, s, s, q);
    CongMod((z + h % q) % q * s, q);
    CongMul(y, y0, r, r, q);
    CongMod(y * r, q);
    CongAdd((z + h % q) % q * s % q, (z0 + h) * s, y * r % q, y0 * r, q);
  }

  lemma {:induction false} ClientKeyValue(env: Env, x0: int, x: int, b: int, draw: Draw)
    requires env.q > 0 && Cong(x, x0, env.q)
    ensures ClientKey(env, PointW(env, x, draw), b) == ((x0 * draw.s + draw.r) * b) % env.q
  {
    var q, r, s := env.q, draw.r, draw.s;
    CongMul(x, x0, s, s, q);
    CongMod(x * s, q);
    CongMod(r, q);
    CongAdd(x * s % q, x0 * s, r % q, r, q);
    CongMod(x * s % q + r % q, q);
    CongMul((x * s % q + r % q) % q, x0 * s + r, b, b, q);
  }

  // ---------------------------------------------------------------------------------------------
  // One-time pads
  // ---------------------------------------------------------------------------------------------

  function XorBits(a: nat, b: nat, bits: nat): (r: nat)
    ensures r < Pow2(bits)
  {
    if bits == 0 then 0 else 2 * XorBits(a / 2, b / 2, bits - 1) + (a % 2 + b % 2) % 2
  }

  lemma XorHalves(a: nat, b: nat, bits: nat)
    requires bits > 0
    ensures XorBits(a, b, bits) / 2 == XorBits(a / 2, b / 2, bits - 1)
    ensures XorBits(a, b, bits) % 2 == (a % 2 + b % 2) % 2
  {
  }

  lemma SameHalves(a: nat, b: nat)
    ensures a == b <==> a / 2 == b / 2 && a % 2 == b % 2
  {
  }

  lemma HalfBelow(a: nat, bits: nat)
    requires bits > 0 && a < Pow2(bits)
    ensures a / 2 < Pow2(bits - 1)
  {
  }

  lemma ParityCancel(m: nat, k: nat, k': nat)
    ensures ((m % 2 + k % 2) % 2 + k' % 2) % 2 == m % 2 <==> k % 2 == k' % 2
  {
  }

  /** Two pads over the same byte cancel exactly when they are equal. */
  lemma {:induction false} XorCancel(m: nat, k: nat, k': nat, bits: nat, x: nat, y: nat)
    requires m < Pow2(bits) && k < Pow2(bits) && k' < Pow2(bits)
    requires x == XorBits(m, k, bits) && y == XorBits(x, k', bits)
    ensures y == m <==> k == k'
    decreases bits
  {
    if bits > 0 {
      HalfBelow(m, bits);
      HalfBelow(k, bits);
      HalfBelow(k', bits);
      XorHalves(m, k, bits);
      XorHalves(x, k', bits);
      XorCancel(m / 2, k / 2, k' / 2, bits - 1, x / 2, y / 2);
      ParityCancel(m, k, k');
      SameHalves(y, m);
      SameHalves(k, k');
    }
  }

  function XorByte(a: Byte, b: Byte): Byte {
    assert Pow2(8) == 256 by { PowBytes(1); }
    XorBits(a, b, 8)
  }

  function Bit(a: nat, i: nat): nat { if i == 0 then a % 2 else Bit(a / 2, i - 1) }

  /** Each bit of the result is the exclusive or of the operands' bits. */
  lemma {:induction false} XorBitwise(a: nat, b: nat, bits: nat, i: nat)
    requires i < bits
    ensures Bit(XorBits(a, b, bits), i) == if Bit(a, i) == Bit(b, i) then 0 else 1
  {
    XorHalves(a, b, bits);
    if i > 0 {
      XorBitwise(a / 2, b / 2, bits - 1, i - 1);
    }
  }

  lemma {:induction false} XorByteBits(a: Byte, b: Byte, i: nat)
    requires i < 8
    ensures 0 <= XorByte(a, b) < 256 && Bit(XorByte(a, b), i) == if Bit(a, i) == Bit(b, i) then 0 else 1
  {
    XorBitwise(a, b, 8, i);
  }

  function Xor(message: Text, key: Text): (r: Text)
    requires |message| <= |key|
    ensures |r| == |message|
  {
    seq(|message|, i requires 0 <= i < |message| => XorByte(message[i], key[i]))
  }

  lemma XorTwice(m: Text, k: Text, k': Text, i: nat)
    requires i < |m| <= |k| && |m| <= |k'|
    ensures Xor(Xor(m, k), k')[i] == m[i] <==> k[i] == k'[i]
  {
    PowBytes(1);
    XorCancel(m[i], k[i], k'[i], 8, Xor(m, k)[i], Xor(Xor(m, k), k')[i]);
  }

  // ---------------------------------------------------------------------------------------------
  // The server's and the client's loop
  // ---------------------------------------------------------------------------------------------

  /** "PPC_DEFAULT_MESG" */
  const MARKER: Text := [80, 80, 67, 95, 68, 69, 70, 65, 85, 76, 84, 95, 77, 69, 83, 71]

  lemma MarkerIsText(i: nat)
    requires i < 16
    ensures |MARKER| == 16 == |"PPC_DEFAULT_MESG"| && MARKER[i] == "PPC_DEFAULT_MESG"[i] as int
  {
  }

  datatype ReceiverMessage = ReceiverMessage(pointW: seq<int>, messages: seq<Text>, ciphers: seq<Text>)

  predicate LongEnough(env: Env, sender: SenderMessage, row: Row, draw: Draw)
    requires env.q > 0
  {
    |env.point(ServerKey(env, sender.pointY, sender.pointZ, row.id, draw))| >= 32
  }

  function EncryptMessage(env: Env, sender: SenderMessage, row: Row, draw: Draw): (m: Text)
    requires env.q > 0 && |draw.randomKey| >= 16 && LongEnough(env, sender, row, draw)
    ensures |m| == 32
  {
    Xor(MARKER + draw.randomKey[..16], env.point(ServerKey(env, sender.pointY, sender.pointZ, row.id, draw)))
  }

  ghost predicate Answers(env: Env, sender: SenderMessage, rows: seq<Row>, draws: seq<Draw>, m: ReceiverMessage)
    requires env.q > 0 && |draws| >= |rows| && forall i :: 0 <= i < |draws| ==> |draws[i].randomKey| >= 16
  {
    && |m.pointW| == |m.messages| == |m.ciphers| == |rows|
    && forall i :: 0 <= i < |rows| ==>
         && LongEnough(env, sender, rows[i], draws[i])
         && m.pointW[i] == PointW(env, sender.pointX, draws[i])
         && m.messages[i] == EncryptMessage(env, sender, rows[i], draws[i])
         && m.ciphers[i] == env.seal(draws[i].randomKey[..16], rows[i].record)
  }

  /** One answer per row, in order; the exception is raised exactly when some key point is too short. */
  method ReceiverGenerateMessage(env: Env, sender: SenderMessage, rows: seq<Row>, draws: seq<Draw>)
    returns (r: Result<ReceiverMessage>)
    requires env.q > 0 && |draws| >= |rows| && forall i :: 0 <= i < |draws| ==> |draws[i].randomKey| >= 16
    ensures r.Ok? ==> Answers(env, sender, rows, draws, r.value)
    ensures r.Err? ==> r.error == CipherLengthFail
                       && exists i :: 0 <= i < |rows| && !LongEnough(env, sender, rows[i], draws[i])
  {
    var pointW: seq<int>, messages: seq<Text>, ciphers: seq<Text> := [], [], [];
    for i := 0 to |rows|
      invariant Answers(env, sender, rows[..i], draws, ReceiverMessage(pointW, messages, ciphers))
    {
      var draw := draws[i];
      var newBytes := MARKER + draw.randomKey[..16];
      var pointKey := env.point(ServerKey(env, sender.pointY, sender.pointZ, rows[i].id, draw));
      if |pointKey| < |newBytes| {
        return Err(CipherLengthFail);
      }
      var encryptMessage := XorLoop(newBytes, pointKey);
      pointW := pointW + [PointW(env, sender.pointX, draw)];
      ciphers := ciphers + [env.seal(draw.randomKey[..16], rows[i].record)];
      messages := messages + [encryptMessage];
    }
    assert rows[..|rows|] == rows;
    return Ok(ReceiverMessage(pointW, messages, ciphers));
  }

  method XorLoop(message: Text, key: Text) returns (r: Text)
    requires |message| <= |key|
    ensures r == Xor(message, key)
  {
    r := [];
    for k := 0 to |message|
      invariant r == Xor(message[..k], key)
    {
      r := r + [XorByte(message[k], key[k])];
    }
    assert message[..|message|] == message;
  }

  method IsPrefix(prefix: Text, target: Text) returns (r: bool)
    ensures r <==> prefix <= target
  {
    if |prefix| > |target| {
      return false;
    }
    for i := 0 to |prefix|
      invariant prefix[..i] == target[..i]
    {
      if prefix[i] != target[i] {
        return false;
      }
    }
    return true;
  }

  function Unmask(env: Env, b: int, m: ReceiverMessage, i: nat): Text
    requires env.q > 0 && i < |m.pointW| && i < |m.messages|
    requires |m.messages[i]| <= |env.point(ClientKey(env, m.pointW[i], b))|
  {
    Xor(m.messages[i], env.point(ClientKey(env, m.pointW[i], b)))
  }

  /** What keeps finishSender inside its vectors: a message is no longer than its key, and one that shows
      the marker has an AES key behind it and a sealed record beside it. */
  ghost predicate WellFormed(env: Env, b: int, m: ReceiverMessage)
    requires env.q > 0
  {
    && |m.messages| == |m.pointW|
    && forall i :: 0 <= i < |m.pointW| ==>
         && |m.messages[i]| <= |env.point(ClientKey(env, m.pointW[i], b))|
         && (MARKER <= Unmask(env, b, m, i) ==> |m.messages[i]| >= 32 && i < |m.ciphers|)
  }

  /** The first unmasked message that starts with the marker decides the result. */
  ghost function Finish(env: Env, b: int, m: ReceiverMessage, i: nat): Text
    requires env.q > 0 && WellFormed(env, b, m)
    decreases |m.pointW| - i
  {
    if i >= |m.pointW| then []
    else if MARKER <= Unmask(env, b, m, i) then env.unseal(Unmask(env, b, m, i)[16..32], m.ciphers[i])
    else Finish(env, b, m, i + 1)
  }

  method FinishSender(env: Env, b: int, m: ReceiverMessage) returns (r: Result<Text>)
    requires env.q > 0 && (|m.messages| == |m.pointW| ==> WellFormed(env, b, m))
    ensures r == if |m.messages| != |m.pointW| then Err(CipherLengthFail) else Ok(Finish(env, b, m, 0))
  {
    if |m.messages| != |m.pointW| {
      return Err(CipherLengthFail);
    }
    for i := 0 to |m.pointW|
      invariant Finish(env, b, m, 0) == Finish(env, b, m, i)
    {
      var key := env.point(ClientKey(env, m.pointW[i], b));
      var decryptMessage := XorLoop(m.messages[i], key);
      var hit := IsPrefix(MARKER, decryptMessage);
      if hit {
        return Ok(env.unseal(decryptMessage[16..32], m.ciphers[i]));
      }
    }
    return Ok([]);
  }
}
