/**
 The bignum helpers of `big_XXX.c`: the modular multiply-and-add used by
 every Schnorr-type response, and hashing one, two or three messages into
 a bignum. Bignum values are integers; limbs matter where arguments are
 rewritten in place (the summand normalised by AMCL's carry pass, the
 multiplicands reduced modulo the modulus), modelled over 56-bit limbs (the `256_56` and `384_56` builds both use 56-bit limbs).
 SHA-256 is an abstract state machine: an initial state, a one-byte update
 and a finalisation.
 */
module Big {
  import opened Bytes

  /** Radix of one limb: `2^BASEBITS` with `BASEBITS = 56`. */
  const LimbBase: nat := 0x100_0000_0000_0000

  /** The value of a little-endian limb vector (limbs may be negative or oversized). */
  function Value(limbs: seq<int>): int
  {
    if |limbs| == 0 then 0 else limbs[0] + LimbBase * Value(limbs[1..])
  }

  /** Every limb but the top one lies in `[0, 2^56)`. */
  predicate Normalized(limbs: seq<int>)
  {
    forall i :: 0 <= i < |limbs| - 1 ==> 0 <= limbs[i] < LimbBase
  }

  /**
   `BIG_XXX_norm` from limb `0` upward with an incoming carry: each limb
   keeps its low 56 bits (`& BMASK`) and passes the arithmetic shift
   (`>> BASEBITS`, which rounds down) to the next; the top limb absorbs the
   final carry.
   */
  function NormCarry(limbs: seq<int>, carry: int): (r: seq<int>)
    requires |limbs| > 0
    ensures |r| == |limbs|
    ensures Normalized(r)
    ensures Value(r) == Value(limbs) + carry
    decreases |limbs|
  {
    if |limbs| == 1 then [limbs[0] + carry]
    else
      var d := limbs[0] + carry;
      var rest := NormCarry(limbs[1..], d / LimbBase);
      assert d == d % LimbBase + LimbBase * (d / LimbBase);
      [d % LimbBase] + rest
  }

  /** `BIG_XXX_norm`: the limbs are rewritten in place, the number they denote is not. */
  function Norm(limbs: seq<int>): (r: seq<int>)
    requires |limbs| > 0
    ensures |r| == |limbs|
    ensures Normalized(r)
    ensures Value(r) == Value(limbs)
  {
    NormCarry(limbs, 0)
  }

  /** Dropping the lowest limb keeps a vector normalised. */
  lemma NormalizedTail(limbs: seq<int>)
    requires |limbs| > 0 && Normalized(limbs)
    ensures Normalized(limbs[1..])
  {
    forall i | 0 <= i < |limbs[1..]| - 1
      ensures 0 <= limbs[1..][i] < LimbBase
    {
      assert limbs[1..][i] == limbs[i + 1];
    }
  }

  /** Normalising twice changes nothing more. */
  lemma {:induction false} NormCarryOfNormalized(limbs: seq<int>)
    requires |limbs| > 0 && Normalized(limbs)
    ensures NormCarry(limbs, 0) == limbs
    decreases |limbs|
  {
    if |limbs| > 1 {
      assert 0 <= limbs[0] < LimbBase;
      assert limbs[0] / LimbBase == 0 && limbs[0] % LimbBase == limbs[0];
      NormalizedTail(limbs);
      NormCarryOfNormalized(limbs[1..]);
      assert limbs == [limbs[0]] + limbs[1..];
    }
  }

  lemma NormIdempotent(limbs: seq<int>)
    requires |limbs| > 0
    ensures Norm(Norm(limbs)) == Norm(limbs)
  {
    NormCarryOfNormalized(Norm(limbs));
  }

  /** Normalised vectors of one length that denote the same number are the same limbs. */
  lemma {:induction false} NormalizedUnique(a: seq<int>, b: seq<int>)
    requires |a| == |b| > 0 && Normalized(a) && Normalized(b)
    requires Value(a) == Value(b)
    ensures a == b
    decreases |a|
  {
    if |a| == 1 {
      assert a == [a[0]] && b == [b[0]];
    } else {
      NormalizedTail(a);
      NormalizedTail(b);
      assert 0 <= a[0] < LimbBase && 0 <= b[0] < LimbBase;
      ModUnique(Value(a), LimbBase, Value(a[1..]), a[0]);
      ModUnique(Value(b), LimbBase, Value(b[1..]), b[0]);
      NormalizedUnique(a[1..], b[1..]);
      assert a == [a[0]] + a[1..] && b == [b[0]] + b[1..];
    }
  }

  /**
   The `n` normalised limbs that denote `v`: base-`2^56` digits, least
   significant first, with whatever is left in the top limb. This is the
   form `BIG_XXX_mod` leaves its argument in.
   */
  function LimbsOf(v: nat, n: nat): (r: seq<int>)
    requires n > 0
    ensures |r| == n && Normalized(r) && Value(r) == v
    decreases n
  {
    if n == 1 then [v]
    else
      assert v == v % LimbBase + LimbBase * (v / LimbBase);
      [v % LimbBase] + LimbsOf(v / LimbBase, n - 1)
  }

  /**
   What `big_XXX_mod_mul_and_add` leaves: the output, the summand normalised
   in place, and both multiplicands reduced modulo the modulus in place.
   */
  datatype MulAddResult = MulAddResult(out: nat, summand: seq<int>, multiplicand1: seq<int>, multiplicand2: seq<int>)

  /**
   `big_XXX_mod_mul_and_add`: `modmul` reduces both multiplicands in place
   and then their product, the summand is normalised in place, added, and
   the sum is reduced once more.
   */
  function ModMulAndAdd(summand: seq<int>, m1: seq<int>, m2: seq<int>, modulus: nat): (r: MulAddResult)
    requires |summand| > 0 && Value(summand) >= 0
    requires |m1| > 0 && Value(m1) >= 0 && |m2| > 0 && Value(m2) >= 0
    requires modulus > 0
    ensures r.out == (Value(summand) + Value(m1) * Value(m2)) % modulus
    ensures r.out < modulus
    ensures |r.summand| == |summand| && Normalized(r.summand) && Value(r.summand) == Value(summand)
    ensures |r.multiplicand1| == |m1| && Normalized(r.multiplicand1) && Value(r.multiplicand1) == Value(m1) % modulus
    ensures |r.multiplicand2| == |m2| && Normalized(r.multiplicand2) && Value(r.multiplicand2) == Value(m2) % modulus
  {
    var a := LimbsOf(Value(m1) % modulus, |m1|);
    var b := LimbsOf(Value(m2) % modulus, |m2|);
    var product := (Value(a) * Value(b)) % modulus;
    ModOfProduct(Value(m1), Value(m2), modulus);
    var normed := Norm(summand);
    var sum := Value(normed) + product;
    ModOfAddedMod(Value(summand), Value(m1) * Value(m2), modulus);
    MulAddResult(sum % modulus, normed, a, b)
  }

  lemma ModAddMultiple(k: int, t: int, m: int)
    requires m > 0
    ensures (k * m + t) % m == t % m
  {
    ModUnique(k * m + t, m, k + t / m, t % m);
    assert k * m + t == (k + t / m) * m + t % m by {
      assert t == (t / m) * m + t % m;
    }
  }

  /** Reducing one addend first does not change the sum modulo `m`. */
  lemma ModOfAddedMod(a: int, b: int, m: int)
    requires m > 0
    ensures (a + b % m) % m == (a + b) % m
  {
    assert a + b == (b / m) * m + (a + b % m);
    ModAddMultiple(b / m, a + b % m, m);
  }

  /** A product modulo `m` depends only on the factors modulo `m`. */
  lemma ModOfProduct(a: int, b: int, m: int)
    requires m > 0
    ensures (a * b) % m == ((a % m) * (b % m)) % m
  {
    var x, ra := a / m, a % m;
    var y, rb := b / m, b % m;
    assert a * b == (x * b + ra * y) * m + ra * rb by {
      assert a == x * m + ra;
      assert b == y * m + rb;
      assert a * b == (x * m + ra) * b;
      assert (x * m + ra) * b == x * m * b + ra * b;
      assert ra * b == ra * (y * m + rb) == ra * y * m + ra * rb;
    }
    ModAddMultiple(x * b + ra * y, ra * rb, m);
  }

  /**
   Inputs already below the modulus come back as their normalised copies,
   and the output is the one computed from those copies.
   */
  lemma {:induction false} NormalizesInputs(s: seq<int>, a: seq<int>, b: seq<int>, modulus: nat)
    requires |s| > 0 && |a| > 0 && |b| > 0 && Value(s) >= 0
    requires 0 <= Value(a) < modulus && 0 <= Value(b) < modulus
    ensures ModMulAndAdd(s, a, b, modulus).summand == Norm(s)
    ensures ModMulAndAdd(s, a, b, modulus).multiplicand1 == Norm(a)
    ensures ModMulAndAdd(s, a, b, modulus).multiplicand2 == Norm(b)
    ensures ModMulAndAdd(s, a, b, modulus).out == ModMulAndAdd(Norm(s), Norm(a), Norm(b), modulus).out
  {
    var r := ModMulAndAdd(s, a, b, modulus);
    Bytes.ModOfSmaller(Value(a), modulus);
    Bytes.ModOfSmaller(Value(b), modulus);
    NormalizedUnique(r.multiplicand1, Norm(a));
    NormalizedUnique(r.multiplicand2, Norm(b));
    NormalizedUnique(r.summand, Norm(s));
  }

  /** `s + a*b mod m` depends only on `s`, `a` and `b` modulo `m`. */
  lemma MulAddOfCongruent(s1: int, s2: int, a1: int, a2: int, b1: int, b2: int, m: int)
    requires m > 0
    requires s1 % m == s2 % m && a1 % m == a2 % m && b1 % m == b2 % m
    ensures (s1 + a1 * b1) % m == (s2 + a2 * b2) % m
  {
    ModOfProduct(a1, b1, m);
    ModOfProduct(a2, b2, m);
    ModOfAddedMod(s1, a1 * b1, m);
    ModOfAddedMod(s2, a2 * b2, m);
    ModOfAddedMod(a1 * b1 % m, s1, m);
    ModOfAddedMod(a2 * b2 % m, s2, m);
  }

  /** Summands and factors congruent modulo the modulus give the same output. */
  lemma {:induction false} ModMulAndAddCongruent(s1: seq<int>, s2: seq<int>, a1: seq<int>, a2: seq<int>, b1: seq<int>, b2: seq<int>, modulus: nat)
    requires |s1| > 0 && |s2| > 0 && Value(s1) >= 0 && Value(s2) >= 0
    requires |a1| > 0 && |a2| > 0 && Value(a1) >= 0 && Value(a2) >= 0
    requires |b1| > 0 && |b2| > 0 && Value(b1) >= 0 && Value(b2) >= 0
    requires modulus > 0
    requires Value(s1) % modulus == Value(s2) % modulus
    requires Value(a1) % modulus == Value(a2) % modulus && Value(b1) % modulus == Value(b2) % modulus
    ensures ModMulAndAdd(s1, a1, b1, modulus).out == ModMulAndAdd(s2, a2, b2, modulus).out
  {
    MulAddOfCongruent(Value(s1), Value(s2), Value(a1), Value(a2), Value(b1), Value(b2), modulus);
  }

  /** A one-limb number written in the five limbs of the `256_56` build. */
  lemma OneLimbValue(v: int)
    ensures Value([v, 0, 0, 0, 0]) == v
  {
    assert Value([0]) == 0;
    assert [v, 0, 0, 0, 0][1..] == [0, 0, 0, 0];
    assert [0, 0, 0, 0][1..] == [0, 0, 0];
    assert [0, 0, 0][1..] == [0, 0];
    assert [0, 0][1..] == [0];
  }

  /** The small sanity case: `4 + 9*15 mod 13 = 9`. */
  lemma SmallSanityCase()
    ensures ModMulAndAdd([4, 0, 0, 0, 0], [9, 0, 0, 0, 0], [15, 0, 0, 0, 0], 13).out == 9
  {
    OneLimbValue(4);
    OneLimbValue(9);
    OneLimbValue(15);
  }

  /** `1 + 1*1` is `2` modulo any curve order above `2`. */
  lemma AllOnesCase(order: nat)
    requires order > 2
    ensures ModMulAndAdd([1, 0, 0, 0, 0], [1, 0, 0, 0, 0], [1, 0, 0, 0, 0], order).out == 2
  {
    OneLimbValue(1);
    ModUnique(1 + 1 * 1, order, 0, 2);
  }

  /** An even total is `0` modulo `2`. */
  lemma ModulusTwoCase()
    ensures ModMulAndAdd([2, 0, 0, 0, 0], [109238, 0, 0, 0, 0], [892001, 0, 0, 0, 0], 2).out == 0
  {
    OneLimbValue(2);
    OneLimbValue(109238);
    OneLimbValue(892001);
    assert 2 + 109238 * 892001 == 2 * (1 + 54619 * 892001);
    ModAddMultiple(1 + 54619 * 892001, 0, 2);
  }

  /** The SHA-256 engine as an abstract state machine (`HASH256_init/process/hash`). */
  datatype Hasher<!S> = Hasher(init: S, process: (S, byte) -> S, finish: S -> seq<byte>)

  /** The state after feeding `msg` one byte at a time, first byte first. */
  function Absorb<S>(h: Hasher<S>, st: S, msg: seq<byte>): S
    decreases |msg|
  {
    if |msg| == 0 then st else h.process(Absorb(h, st, msg[..|msg| - 1]), msg[|msg| - 1])
  }

  /** `convert_hash_to_big_XXX` applied to the state after the message: the digest read big-endian. */
  function HashOf<S>(h: Hasher<S>, msg: seq<byte>): nat
  {
    FromBytes(h.finish(Absorb(h, h.init, msg)))
  }

  /** Feeding a concatenation is feeding its parts in turn. */
  lemma {:induction false} AbsorbAppend<S>(h: Hasher<S>, st: S, a: seq<byte>, b: seq<byte>)
    ensures Absorb(h, st, a + b) == Absorb(h, Absorb(h, st, a), b)
    decreases |b|
  {
    if |b| == 0 {
      assert a + b == a;
    } else {
      assert (a + b)[..|a + b| - 1] == a + b[..|b| - 1];
      AbsorbAppend(h, st, a, b[..|b| - 1]);
    }
  }

  /** The byte loop of every `from_*hash` helper: feed `msg` into `st`. */
  method Feed<S>(h: Hasher<S>, st: S, msg: seq<byte>) returns (out: S)
    ensures out == Absorb(h, st, msg)
  {
    out := st;
    var i := 0;
    while i < |msg|
      invariant 0 <= i <= |msg|
      invariant out == Absorb(h, st, msg[..i])
    {
      assert msg[..i + 1][..i] == msg[..i];
      out := h.process(out, msg[i]);
      i := i + 1;
    }
    assert msg[..i] == msg;
  }

  /** `big_XXX_from_hash`; the digest has 32 bytes, so the value is below `2^256`. */
  method FromHash<S>(h: Hasher<S>, msg: seq<byte>) returns (v: nat)
    ensures v == HashOf(h, msg)
    ensures |h.finish(Absorb(h, h.init, msg))| == 32 ==> v < Pow256(32)
  {
    var st := Feed(h, h.init, msg);
    v := FromBytes(h.finish(st));
  }

  /** `big_XXX_from_two_message_hash`: the same as hashing the concatenation. */
  method FromTwoMessageHash<S>(h: Hasher<S>, msg1: seq<byte>, msg2: seq<byte>) returns (v: nat)
    ensures v == HashOf(h, msg1 + msg2)
  {
    var st := Feed(h, h.init, msg1);
    st := Feed(h, st, msg2);
    AbsorbAppend(h, h.init, msg1, msg2);
    v := FromBytes(h.finish(st));
  }

  /** `big_XXX_from_three_message_hash`: the same as hashing the three messages joined. */
  method FromThreeMessageHash<S>(h: Hasher<S>, msg1: seq<byte>, msg2: seq<byte>, msg3: seq<byte>) returns (v: nat)
    ensures v == HashOf(h, msg1 + msg2 + msg3)
  {
    var st := Feed(h, h.init, msg1);
    st := Feed(h, st, msg2);
    st := Feed(h, st, msg3);
    AbsorbAppend(h, h.init, msg1, msg2);
    AbsorbAppend(h, h.init, msg1 + msg2, msg3);
    v := FromBytes(h.finish(st));
  }
}
