/** cpp/wedpr-crypto/ppc-homo/ihc/IhcImpl.cpp: encryption runs x' = key * x - last forward from the
    plaintext and a random start, decryption runs the same recurrence backward. */
module Ihc {
  import opened Arith
  import opened Outcome
  import opened SignedCodec

  /** Two consecutive terms of the recurrence; a ciphertext is the pair (c1, c2) = (v, last). */
  datatype State = State(v: int, last: int)

  function Swap(s: State): State { State(s.last, s.v) }
  function Plus(s: State, t: State): State { State(s.v + t.v, s.last + t.last) }
  function Minus(s: State, t: State): State { State(s.v - t.v, s.last - t.last) }
  function Scale(k: int, s: State): State { State(k * s.v, k * s.last) }

  predicate Reduced(n: nat, s: State) { 0 <= s.v < n && 0 <= s.last < n }

  ghost predicate CongState(s: State, t: State, n: nat)
    requires n > 0
  {
    Cong(s.v, t.v, n) && Cong(s.last, t.last, n)
  }

  /** One round as the program computes it: a modular product, then a modular difference. */
  function Round(n: nat, key: int, s: State): State
    requires n > 0
  {
    State(((s.v * key) % n - s.last) % n, s.v)
  }

  function Rounds(n: nat, key: int, count: nat, s: State): State
    requires n > 0
  {
    if count == 0 then s else Round(n, key, Rounds(n, key, count - 1, s))
  }

  function Encrypt(n: nat, rounds: nat, key: int, m: int, nonce: int): Result<State>
    requires n > 0
  {
    match Encode(n, m)
    case Err(e) => Err(e)
    case Ok(v) => Ok(Rounds(n, key, rounds, State(v, nonce)))
  }

  /** The number that decryption hands to the codec. With no round at all none is undone. */
  function DecryptResidue(n: nat, rounds: nat, key: int, c: State): int
    requires n > 0
  {
    Rounds(n, key, if rounds == 0 then 0 else rounds - 1, Swap(c)).v
  }

  function Decrypt(n: nat, rounds: nat, key: int, c: State): Result<int>
    requires n > 0
  {
    Decode(n, DecryptResidue(n, rounds, key, c))
  }

  function ModState(s: State, n: nat): State
    requires n > 0
  {
    State(s.v % n, s.last % n)
  }

  function Add(n: nat, c: State, d: State): State requires n > 0 { ModState(Plus(c, d), n) }
  function Sub(n: nat, c: State, d: State): State requires n > 0 { ModState(Minus(c, d), n) }
  function ScalaMul(n: nat, k: int, c: State): State requires n > 0 { ModState(Scale(k, c), n) }

  // ---------------------------------------------------------------------------------------------
  // The recurrence over the integers, without any reduction
  // ---------------------------------------------------------------------------------------------

  ghost function Step(key: int, s: State): State { State(s.v * key - s.last, s.v) }

  ghost function Run(key: int, count: nat, s: State): State {
    if count == 0 then s else Step(key, Run(key, count - 1, s))
  }

  lemma {:induction false} RunFirst(key: int, count: nat, s: State)
    ensures Run(key, count + 1, s) == Run(key, count, Step(key, s))
  {
    if count == 0 {
      assert Run(key, 1, s) == Step(key, Run(key, 0, s));
    } else {
      RunFirst(key, count - 1, s);
    }
  }

  /** Running the recurrence on the swapped end state undoes every step. */
  lemma {:induction false} RunBack(key: int, count: nat, s: State)
    ensures Run(key, count, Swap(Run(key, count, s))) == Swap(s)
  {
    if count == 0 {
    } else {
      RunFirst(key, count - 1, s);
      RunBack(key, count - 1, Step(key, s));
    }
  }

  lemma {:induction false} RunPlus(key: int, count: nat, s: State, t: State)
    ensures Run(key, count, Plus(s, t)) == Plus(Run(key, count, s), Run(key, count, t))
  {
    if count == 0 {
    } else {
      RunPlus(key, count - 1, s, t);
      var a, b := Run(key, count - 1, s), Run(key, count - 1, t);
      assert (a.v + b.v) * key == a.v * key + b.v * key;
    }
  }

  lemma {:induction false} RunScale(key: int, count: nat, k: int, s: State)
    ensures Run(key, count, Scale(k, s)) == Scale(k, Run(key, count, s))
  {
    if count == 0 {
    } else {
      RunScale(key, count - 1, k, s);
      var a := Run(key, count - 1, s);
      assert (k * a.v) * key - k * a.last == k * (a.v * key - a.last);
    }
  }

  lemma RunMinus(key: int, count: nat, s: State, t: State)
    ensures Run(key, count, Minus(s, t)) == Minus(Run(key, count, s), Run(key, count, t))
  {
    RunScale(key, count, -1, t);
    RunPlus(key, count, s, Scale(-1, t));
    assert Plus(s, Scale(-1, t)) == Minus(s, t);
  }

  /** The reduced rounds follow the unreduced recurrence modulo N. */
  lemma {:induction false} RoundsCong(n: nat, key: int, count: nat, s: State, t: State)
    requires n > 0 && CongState(s, t, n)
    ensures CongState(Rounds(n, key, count, s), Run(key, count, t), n)
  {
    if count == 0 {
    } else {
      RoundsCong(n, key, count - 1, s, t);
      var a, b := Rounds(n, key, count - 1, s), Run(key, count - 1, t);
      CongMul(a.v, b.v, key, key, n);
      CongMod(a.v * key, n);
      CongSub((a.v * key) % n, b.v * key, a.last, b.last, n);
      CongMod((a.v * key) % n - a.last, n);
    }
  }

  lemma {:induction false} RoundsReduced(n: nat, key: int, count: nat, s: State)
    requires n > 0 && 0 <= s.v < n && (count == 0 ==> 0 <= s.last < n)
    ensures Reduced(n, Rounds(n, key, count, s))
  {
    if count == 0 {
    } else if count == 1 {
      assert Rounds(n, key, 0, s) == s;
    } else {
      RoundsReduced(n, key, count - 1, s);
    }
  }

  /** Consecutive terms of x' = key * x - last modulo N. */
  ghost predicate Terms(n: nat, key: int, xs: seq<int>)
    requires n > 0
  {
    forall i :: 2 <= i < |xs| ==> 0 <= xs[i] < n && Cong(xs[i], key * xs[i - 1] - xs[i - 2], n)
  }

  /** The ciphertext is the last two terms of the sequence that the nonce and the residue of the plaintext
      start; the length is the number of rounds. */
  lemma {:induction false} RoundsAreTerms(n: nat, key: int, count: nat, s: State) returns (xs: seq<int>)
    requires n > 0
    ensures |xs| == count + 2 && xs[0] == s.last && xs[1] == s.v && Terms(n, key, xs)
    ensures Rounds(n, key, count, s) == State(xs[count + 1], xs[count])
  {
    if count == 0 {
      xs := [s.last, s.v];
    } else {
      var ys := RoundsAreTerms(n, key, count - 1, s);
      var a := Rounds(n, key, count - 1, s);
      NextTerm(n, key, a);
      xs := ys + [Round(n, key, a).v];
      assert Terms(n, key, xs) by {
        forall i | 2 <= i < |xs| ensures 0 <= xs[i] < n && Cong(xs[i], key * xs[i - 1] - xs[i - 2], n) {
          if i < |ys| {
            assert xs[i] == ys[i] && xs[i - 1] == ys[i - 1] && xs[i - 2] == ys[i - 2];
          }
        }
      }
    }
  }

  lemma NextTerm(n: nat, key: int, a: State)
    requires n > 0
    ensures 0 <= Round(n, key, a).v < n && Cong(Round(n, key, a).v, key * a.v - a.last, n)
  {
    CongMod(a.v * key, n);
    CongSub((a.v * key) % n, a.v * key, a.last, a.last, n);
    CongMod((a.v * key) % n - a.last, n);
    assert a.v * key == key * a.v;
  }

  lemma {:induction false} EncryptIsTerms(n: nat, rounds: nat, key: int, m: int, nonce: int) returns (xs: seq<int>)
    requires n > 0 && Encrypt(n, rounds, key, m, nonce).Ok?
    ensures |xs| == rounds + 2 && xs[0] == nonce && xs[1] == m % n && Terms(n, key, xs)
    ensures Encrypt(n, rounds, key, m, nonce) == Ok(State(xs[rounds + 1], xs[rounds]))
  {
    xs := RoundsAreTerms(n, key, rounds, State(m % n, nonce));
  }

  lemma CongPlus(c: State, s: State, d: State, t: State, n: nat)
    requires n > 0 && CongState(c, s, n) && CongState(d, t, n)
    ensures CongState(Plus(c, d), Plus(s, t), n) && CongState(Minus(c, d), Minus(s, t), n)
  {
    CongAdd(c.v, s.v, d.v, t.v, n);
    CongAdd(c.last, s.last, d.last, t.last, n);
    CongSub(c.v, s.v, d.v, t.v, n);
    CongSub(c.last, s.last, d.last, t.last, n);
  }

  lemma CongScale(k: int, l: int, c: State, s: State, n: nat)
    requires n > 0 && Cong(k, l, n) && CongState(c, s, n)
    ensures CongState(Scale(k, c), Scale(l, s), n)
  {
    CongMul(k, l, c.v, s.v, n);
    CongMul(k, l, c.last, s.last, n);
  }

  lemma ModStateCong(s: State, n: nat)
    requires n > 0
    ensures CongState(ModState(s, n), s, n) && Reduced(n, ModState(s, n))
  {
    CongMod(s.v, n);
    CongMod(s.last, n);
  }

  // ---------------------------------------------------------------------------------------------
  // Expressions over ciphertexts
  // ---------------------------------------------------------------------------------------------

  datatype Expr =
    | Enc(m: int, nonce: int)
    | Sum(left: Expr, right: Expr)
    | Diff(left: Expr, right: Expr)
    | Times(k: int, arg: Expr)

  /** The same computation on ciphertexts. */
  function Eval(n: nat, rounds: nat, key: int, e: Expr): Result<State>
    requires n > 0
  {
    match e
    case Enc(m, nonce) => Encrypt(n, rounds, key, m, nonce)
    case Sum(l, r) =>
      (match (Eval(n, rounds, key, l), Eval(n, rounds, key, r))
       case (Err(x), _) => Err(x)
       case (_, Err(x)) => Err(x)
       case (Ok(c), Ok(d)) => Ok(Add(n, c, d)))
    case Diff(l, r) =>
      (match (Eval(n, rounds, key, l), Eval(n, rounds, key, r))
       case (Err(x), _) => Err(x)
       case (_, Err(x)) => Err(x)
       case (Ok(c), Ok(d)) => Ok(Sub(n, c, d)))
    case Times(k, a) =>
      (match Eval(n, rounds, key, a)
       case Err(x) => Err(x)
       case Ok(c) => Ok(ScalaMul(n, k, c)))
  }

  /** Every plaintext is one that the codec accepts. */
  predicate Encodable(n: nat, e: Expr)
    requires n > 0
  {
    match e
    case Enc(m, _) => Encode(n, m).Ok?
    case Sum(l, r) => Encodable(n, l) && Encodable(n, r)
    case Diff(l, r) => Encodable(n, l) && Encodable(n, r)
    case Times(_, a) => Encodable(n, a)
  }

  /** Only encryption can fail: no sum, difference or product does, however large. */
  lemma {:induction false} EvalSucceeds(n: nat, rounds: nat, key: int, e: Expr)
    requires n > 0
    ensures Eval(n, rounds, key, e).Ok? <==> Encodable(n, e)
  {
    match e
    case Enc(_, _) =>
    case Sum(l, r) => EvalSucceeds(n, rounds, key, l); EvalSucceeds(n, rounds, key, r);
    case Diff(l, r) => EvalSucceeds(n, rounds, key, l); EvalSucceeds(n, rounds, key, r);
    case Times(_, a) => EvalSucceeds(n, rounds, key, a);
  }

  /** The same computation on plain integers. */
  function Plain(e: Expr): int {
    match e
    case Enc(m, _) => m
    case Sum(l, r) => Plain(l) + Plain(r)
    case Diff(l, r) => Plain(l) - Plain(r)
    case Times(k, a) => k * Plain(a)
  }

  /** The same linear combination of the start states. */
  ghost function Origin(e: Expr): State {
    match e
    case Enc(m, nonce) => State(m, nonce)
    case Sum(l, r) => Plus(Origin(l), Origin(r))
    case Diff(l, r) => Minus(Origin(l), Origin(r))
    case Times(k, a) => Scale(k, Origin(a))
  }

  lemma {:induction false} OriginIsPlain(e: Expr)
    ensures Origin(e).v == Plain(e)
  {
    match e
    case Enc(_, _) =>
    case Sum(l, r) => OriginIsPlain(l); OriginIsPlain(r);
    case Diff(l, r) => OriginIsPlain(l); OriginIsPlain(r);
    case Times(_, a) => OriginIsPlain(a);
  }

  lemma {:induction false} EvalTracksOrigin(n: nat, rounds: nat, key: int, e: Expr)
    requires n > 0 && rounds > 0 && Eval(n, rounds, key, e).Ok?
    ensures Reduced(n, Eval(n, rounds, key, e).value)
    ensures CongState(Eval(n, rounds, key, e).value, Run(key, rounds, Origin(e)), n)
  {
    match e
    case Enc(m, nonce) => EncryptTracksOrigin(n, rounds, key, m, nonce);
    case Sum(l, r) =>
      EvalTracksOrigin(n, rounds, key, l);
      EvalTracksOrigin(n, rounds, key, r);
      var c, d := Eval(n, rounds, key, l).value, Eval(n, rounds, key, r).value;
      RunPlus(key, rounds, Origin(l), Origin(r));
      CongPlus(c, Run(key, rounds, Origin(l)), d, Run(key, rounds, Origin(r)), n);
      ModStateCong(Plus(c, d), n);
    case Diff(l, r) =>
      EvalTracksOrigin(n, rounds, key, l);
      EvalTracksOrigin(n, rounds, key, r);
      var c, d := Eval(n, rounds, key, l).value, Eval(n, rounds, key, r).value;
      RunMinus(key, rounds, Origin(l), Origin(r));
      CongPlus(c, Run(key, rounds, Origin(l)), d, Run(key, rounds, Origin(r)), n);
      ModStateCong(Minus(c, d), n);
    case Times(k, a) =>
      EvalTracksOrigin(n, rounds, key, a);
      var c := Eval(n, rounds, key, a).value;
      RunScale(key, rounds, k, Origin(a));
      CongScale(k, k, c, Run(key, rounds, Origin(a)), n);
      ModStateCong(Scale(k, c), n);
  }

  lemma EncryptTracksOrigin(n: nat, rounds: nat, key: int, m: int, nonce: int)
    requires n > 0 && rounds > 0 && Encrypt(n, rounds, key, m, nonce).Ok?
    ensures Reduced(n, Encrypt(n, rounds, key, m, nonce).value)
    ensures CongState(Encrypt(n, rounds, key, m, nonce).value, Run(key, rounds, State(m, nonce)), n)
  {
    var v := Encode(n, m).value;
    CongMod(m, n);
    RoundsReduced(n, key, rounds, State(v, nonce));
    RoundsCong(n, key, rounds, State(v, nonce), State(m, nonce));
  }

  /** Decrypting any ciphertext that follows a start state yields that state's first term. */
  lemma DecryptOrigin(n: nat, rounds: nat, key: int, c: State, origin: State)
    requires n > 0 && rounds > 0 && Reduced(n, c)
    requires CongState(c, Run(key, rounds, origin), n)
    ensures DecryptResidue(n, rounds, key, c) == origin.v % n
  {
    RunBack(key, rounds, origin);
    var back := Run(key, rounds - 1, Swap(Run(key, rounds, origin)));
    assert Step(key, back) == Swap(origin);
    RoundsCong(n, key, rounds - 1, Swap(c), Swap(Run(key, rounds, origin)));
    RoundsReduced(n, key, rounds - 1, Swap(c));
    DivModUnique(DecryptResidue(n, rounds, key, c), 0, DecryptResidue(n, rounds, key, c), n);
  }

  /** The homomorphism, for every key, nonce, round count and expression: what decryption decodes is
      the plain result modulo N, so it returns the plain result exactly when that is representable. */
  lemma Homomorphism(n: nat, rounds: nat, key: int, e: Expr)
    requires n > 0 && rounds > 0 && Eval(n, rounds, key, e).Ok?
    ensures Reduced(n, Eval(n, rounds, key, e).value)
    ensures Decrypt(n, rounds, key, Eval(n, rounds, key, e).value) == Decode(n, Plain(e) % n)
    ensures Decrypt(n, rounds, key, Eval(n, rounds, key, e).value) == Ok(Plain(e))
            <==> Representable(n, Plain(e))
  {
    EvalTracksOrigin(n, rounds, key, e);
    DecryptOrigin(n, rounds, key, Eval(n, rounds, key, e).value, Origin(e));
    OriginIsPlain(e);
    DecodeResidue(n, Plain(e));
  }
}
