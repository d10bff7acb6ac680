/**
 Bytes and the big-endian conversions between byte strings and bignum
 values (`BIG_XXX_fromBytes` and `BIG_XXX_toBytes`): every field of every
 wire format is one of these fixed-width blocks.
 */
module Bytes {

  type byte = b: int | 0 <= b < 256

  function Pow256(n: nat): (r: nat)
    ensures r > 0
  {
    if n == 0 then 1 else 256 * Pow256(n - 1)
  }

  /** The value of a big-endian byte string. */
  function FromBytes(s: seq<byte>): (v: nat)
    ensures v < Pow256(|s|)
  {
    if |s| == 0 then 0 else FromBytes(s[..|s| - 1]) * 256 + s[|s| - 1]
  }

  /** The low `n` bytes of `v`, most significant first. */
  function ToBytes(v: nat, n: nat): (s: seq<byte>)
    ensures |s| == n
  {
    if n == 0 then [] else ToBytes(v / 256, n - 1) + [v % 256]
  }

  /** Writing `n` bytes keeps exactly the value modulo `256^n`. */
  lemma {:induction false} FromToBytes(v: nat, n: nat)
    ensures FromBytes(ToBytes(v, n)) == v % Pow256(n)
  {
    if n > 0 {
      var s := ToBytes(v, n);
      assert s[..|s| - 1] == ToBytes(v / 256, n - 1);
      FromToBytes(v / 256, n - 1);
      DivModNested(v, 256, Pow256(n - 1));
    }
  }

  /** `(v / a) % b * a + v % a == v % (a * b)` for positive `a` and `b`. */
  lemma DivModNested(v: nat, a: nat, b: nat)
    requires a > 0 && b > 0
    ensures (v / a) % b * a + v % a == v % (a * b)
  {
    var q := v / a;
    var r := v % a;
    assert v == q * a + r;
    var q2 := q / b;
    var r2 := q % b;
    assert q == q2 * b + r2;
    assert v == q2 * (a * b) + (r2 * a + r);
    assert 0 <= r2 * a + r < a * b by {
      assert r2 * a + r <= (b - 1) * a + (a - 1);
    }
    ModUnique(v, a * b, q2, r2 * a + r);
  }

  lemma ModUnique(v: int, m: int, q: int, r: int)
    requires m > 0 && 0 <= r < m && v == q * m + r
    ensures v % m == r && v / m == q
  {
    var q0 := v / m;
    var r0 := v % m;
    var d := q - q0;
    assert q * m == q0 * m + d * m by {
      assert q == q0 + d;
    }
    assert d * m == r0 - r;
    assert (-d) * m == -(d * m);
    MulAtLeast(d, m);
    MulAtLeast(-d, m);
  }

  lemma MulAtLeast(d: int, m: int)
    requires m > 0
    ensures d >= 1 ==> d * m >= m
  {
    assert d * m == (d - 1) * m + m;
    if d >= 1 {
      assert (d - 1) * m >= 0;
    }
  }

  /** A value that fits in `n` bytes is written and read back unchanged. */
  lemma FromToBytesFits(v: nat, n: nat)
    requires v < Pow256(n)
    ensures FromBytes(ToBytes(v, n)) == v
  {
    FromToBytes(v, n);
  }

  /** Reading a byte string and writing its value back at the same width reproduces it. */
  lemma {:induction false} ToFromBytes(s: seq<byte>)
    ensures ToBytes(FromBytes(s), |s|) == s
  {
    if |s| > 0 {
      var init := s[..|s| - 1];
      var v := FromBytes(s);
      ModUnique(v, 256, FromBytes(init), s[|s| - 1]);
      ToFromBytes(init);
    }
  }

  /** Two byte strings of the same width with the same value are equal. */
  lemma FromBytesInjective(a: seq<byte>, b: seq<byte>)
    requires |a| == |b| && FromBytes(a) == FromBytes(b)
    ensures a == b
  {
    ToFromBytes(a);
    ToFromBytes(b);
  }

  /** Three bignums, as the trailing fields of a key encoding. */
  datatype Triple = Triple(first: nat, second: nat, third: nat)

  /** Three consecutive `m`-byte big-endian fields. */
  function Fields3(t: Triple, m: nat): (r: seq<byte>)
    ensures |r| == 3 * m
  {
    ToBytes(t.first, m) + ToBytes(t.second, m) + ToBytes(t.third, m)
  }

  /** Reading three consecutive `m`-byte fields. */
  function ReadFields3(s: seq<byte>, m: nat): Triple
    requires |s| == 3 * m
  {
    Triple(FromBytes(s[..m]), FromBytes(s[m..2 * m]), FromBytes(s[2 * m..]))
  }

  /** The three fields that follow a `k`-byte prefix sit at `k`, `k + m` and `k + 2m`. */
  lemma ReadFields3At(s: seq<byte>, k: nat, m: nat)
    requires |s| == k + 3 * m
    ensures ReadFields3(s[k..], m) ==
              Triple(FromBytes(s[k..k + m]), FromBytes(s[k + m..k + 2 * m]), FromBytes(s[k + 2 * m..]))
  {
    var t := s[k..];
    assert t[..m] == s[k..k + m];
    assert t[m..2 * m] == s[k + m..k + 2 * m];
    assert t[2 * m..] == s[k + 2 * m..];
  }

  /** Three fields read after a `k`-byte prefix, stated at their absolute offsets. */
  lemma ReadFields3After(s: seq<byte>, k: nat, m: nat, t: Triple)
    requires |s| == k + 3 * m
    requires ReadFields3(s[k..], m) == t
    ensures FromBytes(s[k..k + m]) == t.first && FromBytes(s[k + m..k + 2 * m]) == t.second &&
            FromBytes(s[k + 2 * m..]) == t.third
  {
    ReadFields3At(s, k, m);
  }

  /** Each field reads back as its value modulo `256^m`. */
  lemma Fields3RoundTrip(t: Triple, m: nat)
    ensures ReadFields3(Fields3(t, m), m) == Triple(t.first % Pow256(m), t.second % Pow256(m), t.third % Pow256(m))
  {
    var s := Fields3(t, m);
    var b1, b2, b3 := ToBytes(t.first, m), ToBytes(t.second, m), ToBytes(t.third, m);
    assert s[..m] == b1;
    assert s[m..2 * m] == b2;
    assert s[2 * m..] == b3;
    FromToBytes(t.first, m);
    FromToBytes(t.second, m);
    FromToBytes(t.third, m);
  }

  lemma ModOfSmaller(v: nat, w: nat)
    requires v < w
    ensures v % w == v
  {
    ModUnique(v, w, 0, v);
  }

  /** Each part of a two-part concatenation is found at its offset. */
  lemma Halves<T>(a: seq<T>, b: seq<T>)
    ensures (a + b)[..|a|] == a && (a + b)[|a|..] == b
  {
  }

  /** Each part of a four-part concatenation is found at its offset. */
  lemma Blocks4<T>(a: seq<T>, b: seq<T>, c: seq<T>, d: seq<T>)
    ensures var s := a + b + c + d;
            s[..|a|] == a && s[|a|..|a| + |b|] == b &&
            s[|a| + |b|..|a| + |b| + |c|] == c && s[|a| + |b| + |c|..] == d
  {
  }
}
