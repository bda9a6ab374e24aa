/** The recursive Pietrzak-style delay function of the `NTRU` class
    (`vdf`/`verifyVdf`) and its verifiable random function (`vrf`/`verifyVrf`).

    Both VDF functions take the step count `t` (the code's `T`), the modulus
    `n` (the code's `N`, by default the instance's `p`) and the instance's `p`
    separately, because each round's challenge is hashed with `hashn`'s default
    modulus `p` before it is reduced modulo `N`. */
module NtruVdf {
  import opened JsBigInt
  import opened Ntru

  /** One element `{ x_k, r }` of a proof list. */
  datatype Round = Round(xk: int, r: int)

  /** The `{ y, proof }` record `vdf` returns. */
  datatype VdfOutput = VdfOutput(y: int, proof: seq<Round>)

  /** The challenge `hashn(`${x}:${x_k}:${T}`) % N` of a round. */
  function Challenge(hash: Hash, p: int, n: int, x: int, xk: int, t: int): int
    requires p != 0 && n != 0
  {
    Rem(Hashn(hash, Joined(x, xk, t), p), n)
  }

  /** `x1 = (x_k * powMod(x, r, N)) % N`, the message of the next round. */
  function NextMessage(n: int, x: int, xk: int, r: int): int
    requires n != 0
  {
    Rem(xk * PowModValue(x, r, n), n)
  }

  /** `vdf(msg, T, N)` (crypto.js:388-399).  `T = 0` never terminates in the
      code, so `t >= 1` is required; an odd `t` is halved by floor division.
      The proof has `floor(log2 t)` rounds. */
  function Vdf(hash: Hash, p: int, msg: Datum, t: int, n: int): (out: VdfOutput)
    requires p != 0 && n != 0 && t >= 1
    ensures Pow2(|out.proof|) <= t < Pow2(|out.proof| + 1)
    decreases t
  {
    var x := Hashn(hash, msg, n);
    if t == 1 then
      VdfOutput(PowModValue(x, 2, n), [])
    else
      var k := t / 2;
      var xk := PowModValue(x, Pow2(k), n);
      var r := Challenge(hash, p, n, x, xk, t);
      var rest := Vdf(hash, p, Num(NextMessage(n, x, xk, r)), k, n);
      VdfOutput(rest.y, [Round(xk, r)] + rest.proof)
  }

  /** `verifyVdf(msg, T, y, proof, N)` (crypto.js:401-412), for every `T`.
      Where the code reads `proof[0]` of an empty list and throws, the model
      rejects.  A proof that is accepted has at least `floor(log2 t)` rounds,
      its first round carries the recomputed challenge, and at `t == 1` the
      claimed `y` is the square of the hashed message. */
  function VerifyVdf(hash: Hash, p: int, msg: Datum, t: int, y: int, proof: seq<Round>, n: int): (ok: bool)
    requires p != 0 && n != 0
    ensures ok ==> 1 <= t < Pow2(|proof| + 1)
    ensures ok && t == 1 ==> y == PowModValue(Hashn(hash, msg, n), 2, n)
    ensures ok && t != 1 ==>
      proof != [] && proof[0].r == Challenge(hash, p, n, Hashn(hash, msg, n), proof[0].xk, t)
    decreases |proof|
  {
    var x := Hashn(hash, msg, n);
    if t == 1 then
      PowModValue(x, 2, n) == y
    else if proof == [] then
      false
    else
      var k := Quot(t, 2);
      var xk, r := proof[0].xk, proof[0].r;
      if r != Challenge(hash, p, n, x, xk, t) then
        false
      else
        VerifyVdf(hash, p, Num(NextMessage(n, x, xk, r)), k, y, proof[1..], n)
  }

  /** For `T <= 0` the truncating halving never reaches `1`, so every proof is
      used up round by round and rejected. */
  lemma {:induction false} NonPositiveRejected(hash: Hash, p: int, msg: Datum, t: int,
                                               y: int, proof: seq<Round>, n: int)
    requires p != 0 && n != 0 && t <= 0
    ensures !VerifyVdf(hash, p, msg, t, y, proof, n)
    decreases |proof|
  {
    if proof != [] {
      var x := Hashn(hash, msg, n);
      var next := Num(NextMessage(n, x, proof[0].xk, proof[0].r));
      NonPositiveRejected(hash, p, next, Quot(t, 2), y, proof[1..], n);
    }
  }

  /** Completeness: for every `t >= 1`, the output of `vdf` verifies. */
  lemma {:induction false} VdfComplete(hash: Hash, p: int, msg: Datum, t: int, n: int)
    requires p != 0 && n != 0 && t >= 1
    ensures VerifyVdf(hash, p, msg, t, Vdf(hash, p, msg, t, n).y, Vdf(hash, p, msg, t, n).proof, n)
    decreases t
  {
    if t > 1 {
      var x := Hashn(hash, msg, n);
      var k := t / 2;
      var xk := PowModValue(x, Pow2(k), n);
      var r := Challenge(hash, p, n, x, xk, t);
      var next := Num(NextMessage(n, x, xk, r));
      VdfComplete(hash, p, next, k, n);
      assert Vdf(hash, p, msg, t, n).proof[1..] == Vdf(hash, p, next, k, n).proof;
    }
  }

  /** A given proof list is accepted with at most one `y`. */
  lemma {:induction false} VerifiedOutputUnique(hash: Hash, p: int, msg: Datum, t: int,
                                                y1: int, y2: int, proof: seq<Round>, n: int)
    requires p != 0 && n != 0 && t >= 1
    requires VerifyVdf(hash, p, msg, t, y1, proof, n) && VerifyVdf(hash, p, msg, t, y2, proof, n)
    ensures y1 == y2
    decreases t
  {
    if t > 1 {
      var x := Hashn(hash, msg, n);
      var next := Num(NextMessage(n, x, proof[0].xk, proof[0].r));
      VerifiedOutputUnique(hash, p, next, t / 2, y1, y2, proof[1..], n);
    }
  }

  /** With the proof `vdf` produced, `verifyVdf` accepts exactly the `y` it
      produced: a mutated `y` is rejected. */
  lemma VdfOutputExact(hash: Hash, p: int, msg: Datum, t: int, y: int, n: int)
    requires p != 0 && n != 0 && t >= 1
    ensures VerifyVdf(hash, p, msg, t, y, Vdf(hash, p, msg, t, n).proof, n)
        <==> y == Vdf(hash, p, msg, t, n).y
  {
    var out := Vdf(hash, p, msg, t, n);
    VdfComplete(hash, p, msg, t, n);
    if VerifyVdf(hash, p, msg, t, y, out.proof, n) {
      VerifiedOutputUnique(hash, p, msg, t, y, out.y, out.proof, n);
    }
  }

  /** Replacing the challenge `r` of any round of an honest proof by another
      value makes `verifyVdf` reject, whatever `y` is claimed. */
  lemma {:induction false} TamperedChallengeRejected(hash: Hash, p: int, msg: Datum, t: int,
                                                     y: int, i: nat, r': int, n: int)
    requires p != 0 && n != 0 && t >= 1
    requires i < |Vdf(hash, p, msg, t, n).proof| && r' != Vdf(hash, p, msg, t, n).proof[i].r
    ensures !VerifyVdf(hash, p, msg, t, y,
                       Vdf(hash, p, msg, t, n).proof[i := Round(Vdf(hash, p, msg, t, n).proof[i].xk, r')], n)
    decreases t
  {
    var out := Vdf(hash, p, msg, t, n);
    var tampered := out.proof[i := Round(out.proof[i].xk, r')];
    var x := Hashn(hash, msg, n);
    var k := t / 2;
    var xk := PowModValue(x, Pow2(k), n);
    var r := Challenge(hash, p, n, x, xk, t);
    var next := Num(NextMessage(n, x, xk, r));
    var rest := Vdf(hash, p, next, k, n);
    assert out.proof == [Round(xk, r)] + rest.proof;
    if i > 0 {
      TamperedChallengeRejected(hash, p, next, k, y, i - 1, r', n);
      assert tampered[0] == Round(xk, r);
      assert tampered[1..] == rest.proof[i - 1 := Round(rest.proof[i - 1].xk, r')];
    }
  }

  /** The verifier never checks `x_k` against `x^(2^k)`: a proof whose every
      `x_k` is chosen freely by `pick`, with `r` and `x1` recomputed from it,
      is accepted.  No exponentiation by `2^k` is needed to build it. */
  function ProofWith(hash: Hash, p: int, msg: Datum, t: int, n: int,
                     pick: (int, int) -> int): VdfOutput
    requires p != 0 && n != 0 && t >= 1
    decreases t
  {
    var x := Hashn(hash, msg, n);
    if t == 1 then
      VdfOutput(PowModValue(x, 2, n), [])
    else
      var xk := pick(x, t);
      var r := Challenge(hash, p, n, x, xk, t);
      var rest := ProofWith(hash, p, Num(NextMessage(n, x, xk, r)), t / 2, n, pick);
      VdfOutput(rest.y, [Round(xk, r)] + rest.proof)
  }

  lemma {:induction false} AnyRoundValuesVerify(hash: Hash, p: int, msg: Datum, t: int, n: int,
                                                pick: (int, int) -> int)
    requires p != 0 && n != 0 && t >= 1
    ensures VerifyVdf(hash, p, msg, t, ProofWith(hash, p, msg, t, n, pick).y,
                      ProofWith(hash, p, msg, t, n, pick).proof, n)
    decreases t
  {
    if t > 1 {
      var x := Hashn(hash, msg, n);
      var xk := pick(x, t);
      var next := Num(NextMessage(n, x, xk, Challenge(hash, p, n, x, xk, t)));
      AnyRoundValuesVerify(hash, p, next, t / 2, n, pick);
      assert ProofWith(hash, p, msg, t, n, pick).proof[1..]
          == ProofWith(hash, p, next, t / 2, n, pick).proof;
    }
  }

  /** For a modulus `n > 1`, every value `vdf` returns is reduced: `y` and
      each round's `x_k` and `r` lie in `[0, n)`. */
  lemma {:induction false} VdfValuesReduced(hash: Hash, p: int, msg: Datum, t: int, n: int)
    requires p != 0 && 1 < n && t >= 1
    ensures 0 <= Vdf(hash, p, msg, t, n).y < n
    ensures forall j :: 0 <= j < |Vdf(hash, p, msg, t, n).proof| ==>
      0 <= Vdf(hash, p, msg, t, n).proof[j].xk < n && 0 <= Vdf(hash, p, msg, t, n).proof[j].r < n
    decreases t
  {
    var x := Hashn(hash, msg, n);
    if t == 1 {
      PowModIsReducedPower(x, 2, n);
    } else {
      var k := t / 2;
      var xk := PowModValue(x, Pow2(k), n);
      PowModIsReducedPower(x, Pow2(k), n);
      var r := Challenge(hash, p, n, x, xk, t);
      var next := Num(NextMessage(n, x, xk, r));
      VdfValuesReduced(hash, p, next, k, n);
      var rest := Vdf(hash, p, next, k, n);
      assert Vdf(hash, p, msg, t, n).proof == [Round(xk, r)] + rest.proof;
    }
  }

  // ---------------------------------------------------------------------
  // VRF

  /** The `{ output, signature }` record `vrf` returns. */
  datatype VrfOutput = VrfOutput(output: int, signature: int)

  /** `vrf(msg, privKey)` (crypto.js:348-352): the output is `hashn(msg)`, the
      proof is the signature of the output.  Signing is the parameter `sign`. */
  function Vrf(hash: Hash, p: int, sign: (Datum, int) -> int, msg: Datum, privKey: int): (out: VrfOutput)
    requires p != 0
    ensures 1 <= out.output && (Abs(p) > 1 ==> out.output < Abs(p))
    ensures out.signature == sign(Num(out.output), privKey)
  {
    var output := Hashn(hash, msg, p);
    VrfOutput(output, sign(Num(output), privKey))
  }

  /** `verifyVrf(msg, output, signature, pubKey)` (crypto.js:354-358): an output
      other than `hashn(msg)` is rejected before the signature is looked at. */
  function VerifyVrf(hash: Hash, p: int, verifySign: (Datum, int, int) -> bool,
                     msg: Datum, output: int, signature: int, pubKey: int): (ok: bool)
    requires p != 0
    ensures output != Hashn(hash, msg, p) ==> !ok
    ensures ok ==> verifySign(Num(output), signature, pubKey)
  {
    var expected := Hashn(hash, msg, p);
    if expected != output then false else verifySign(Num(output), signature, pubKey)
  }

  /** A `vrf` result verifies exactly when its signature does. */
  lemma VrfVerifiesIffSignatureDoes(hash: Hash, p: int, sign: (Datum, int) -> int,
                                    verifySign: (Datum, int, int) -> bool,
                                    msg: Datum, privKey: int, pubKey: int)
    requires p != 0
    ensures var out := Vrf(hash, p, sign, msg, privKey);
      VerifyVrf(hash, p, verifySign, msg, out.output, out.signature, pubKey)
        == verifySign(Num(out.output), sign(Num(out.output), privKey), pubKey)
  {
  }
}
