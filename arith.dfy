/**
 * Little-endian numbers behind the codec.
 *
 * The encoder reads the payload as one bit stream, least-significant bit of
 * byte 0 first; that stream is the little-endian number `LE256(bytes)`.
 * Encoding writes the base-32 digits of the payload's number, least
 * significant first; decoding reads them back into base-256 digits.
 */
module Arith {

  type Byte = x: int | 0 <= x < 256

  function Pow2(e: nat): (r: nat)
    ensures r >= 1
  {
    if e == 0 then 1 else 2 * Pow2(e - 1)
  }

  lemma {:induction false} Pow2Add(a: nat, b: nat)
    ensures Pow2(a + b) == Pow2(a) * Pow2(b)
  {
    if a > 0 {
      Pow2Add(a - 1, b);
      assert Pow2(a + b) == 2 * Pow2(a - 1 + b);
    }
  }

  lemma {:induction false} Pow2Monotone(a: nat, b: nat)
    requires a <= b
    ensures Pow2(a) <= Pow2(b)
  {
    if a < b {
      Pow2Monotone(a, b - 1);
    }
  }

  lemma {:induction false} Pow2Small()
    ensures Pow2(5) == 32 && Pow2(8) == 256 && Pow2(16) == 65536
  {
    assert Pow2(8) == 256;
    Pow2Add(8, 8);
  }

  lemma {:induction false} Pow2Of64()
    ensures Pow2(64) == 18446744073709551616
  {
    Pow2Small();
    Pow2Add(16, 16);
    Pow2Add(32, 32);
  }

  /** `v << k`: `v` doubled `k` times. */
  function ShiftLeft(v: int, k: nat): (r: int)
    ensures v >= 0 ==> r >= 0
  {
    if k == 0 then v else 2 * ShiftLeft(v, k - 1)
  }

  lemma {:induction false} ShiftLeftZero(k: nat)
    ensures ShiftLeft(0, k) == 0
  {
    if k > 0 {
      ShiftLeftZero(k - 1);
    }
  }

  lemma {:induction false} ShiftLeftIsProduct(v: int, k: nat)
    ensures ShiftLeft(v, k) == v * Pow2(k)
  {
    if k > 0 {
      ShiftLeftIsProduct(v, k - 1);
      Assoc(v, 2, Pow2(k - 1));
    }
  }

  /** The number a sequence of bytes spells, byte 0 least significant. */
  function LE256(s: seq<Byte>): nat
  {
    if |s| == 0 then 0 else s[0] + 256 * LE256(s[1..])
  }

  predicate AllDigits32(vs: seq<int>)
  {
    forall k :: 0 <= k < |vs| ==> 0 <= vs[k] < 32
  }

  /** The `count` lowest base-32 digits of `x`, least significant first. */
  function Digits32(x: nat, count: nat): (ds: seq<int>)
    ensures |ds| == count && AllDigits32(ds)
  {
    if count == 0 then [] else [x % 32] + Digits32(x / 32, count - 1)
  }

  // ----- multiplication and division facts -----

  lemma {:induction false} MulAtLeast(d: int, k: int)
    requires d > 0 && k >= 1
    ensures d * k >= d
  {
  }

  lemma {:induction false} Distrib(a: int, b: int, c: int)
    ensures a * (b + c) == a * b + a * c
    ensures a * (b - c) == a * b - a * c
  {
  }

  lemma {:induction false} Assoc(a: int, b: int, c: int)
    ensures a * (b * c) == (a * b) * c
  {
  }

  lemma {:induction false} MulMonotone(a: nat, x: int, y: int)
    requires x <= y
    ensures a * x <= a * y
  {
  }

  lemma {:induction false} DivModUnique(x: int, d: int, q: int, r: int)
    requires d > 0 && 0 <= r < d && x == d * q + r
    ensures x / d == q && x % d == r
  {
    var q', r' := x / d, x % d;
    assert x == d * q' + r';
    Distrib(d, q, q');
    if q > q' {
      MulAtLeast(d, q - q');
    } else if q < q' {
      MulAtLeast(d, q' - q);
      Distrib(d, q', q);
    }
  }

  lemma {:induction false} DivAddMultiple(a: int, d: int, k: int)
    requires d > 0
    ensures (a + d * k) / d == a / d + k
    ensures (a + d * k) % d == a % d
  {
    var q, r := a / d, a % d;
    Distrib(d, q, k);
    DivModUnique(a + d * k, d, q + k, r);
  }

  lemma {:induction false} DivDiv(x: nat, a: nat, b: nat)
    requires a > 0 && b > 0
    ensures x / a / b == x / (a * b)
  {
    var q1, r1 := x / a, x % a;
    var q2, r2 := q1 / b, q1 % b;
    assert x == a * q1 + r1;
    assert q1 == b * q2 + r2;
    Distrib(a, b * q2, r2);
    Assoc(a, b, q2);
    assert x == (a * b) * q2 + (a * r2 + r1);
    MulMonotone(a, r2, b - 1);
    Distrib(a, b, 1);
    DivModUnique(x, a * b, q2, a * r2 + r1);
  }

  lemma {:induction false} ShiftIn(b: int, v: int, p: int, q: int)
    ensures (b + v * p) * q == b * q + v * (q * p)
  {
  }

  lemma {:induction false} ShiftOut(b: nat, q: int)
    ensures b * q == (b % 256) * q + (b / 256) * (256 * q)
  {
  }

  lemma {:induction false} BelowNext(b: nat, v: int, p: int)
    requires 0 <= v < 32 && b < p
    ensures b + v * p < 32 * p
  {
  }

  lemma {:induction false} DivBelow(x: nat, d: int, p: int)
    requires d > 0 && x < d * p
    ensures x / d < p
  {
  }

  lemma {:induction false} AtLeastUnit(x: int, y: int, b: int, p: int)
    requires x == y + b * p && y >= 0 && b >= 1 && p >= 1
    ensures x >= p
  {
  }

  // ----- little-endian facts -----

  lemma {:induction false} Pow2Byte(n: nat)
    ensures Pow2(8 * (n + 1)) == 256 * Pow2(8 * n)
  {
    Pow2Add(8, 8 * n);
    assert Pow2(8) == 256;
  }

  lemma {:induction false} Pow2Symbol(n: nat)
    ensures Pow2(5 * (n + 1)) == 32 * Pow2(5 * n)
  {
    Pow2Add(5, 5 * n);
    assert Pow2(5) == 32;
  }

  lemma {:induction false} LE256Bound(s: seq<Byte>)
    ensures LE256(s) < Pow2(8 * |s|)
  {
    if |s| > 0 {
      LE256Bound(s[1..]);
      Pow2Byte(|s| - 1);
      MulMonotone(256, LE256(s[1..]), Pow2(8 * (|s| - 1)) - 1);
      Distrib(256, Pow2(8 * (|s| - 1)), 1);
    }
  }

  lemma {:induction false} LE256Append(s: seq<Byte>, b: Byte)
    ensures LE256(s + [b]) == LE256(s) + b * Pow2(8 * |s|)
  {
    if |s| > 0 {
      assert (s + [b])[1..] == s[1..] + [b];
      LE256Append(s[1..], b);
      Pow2Byte(|s| - 1);
      var p := Pow2(8 * (|s| - 1));
      Distrib(256, LE256(s[1..]), b * p);
      Assoc(256, b, p);
      Assoc(b, 256, p);
    }
  }

  lemma {:induction false} LE256Split(s: seq<Byte>, k: nat)
    requires k <= |s|
    ensures LE256(s) == LE256(s[..k]) + Pow2(8 * k) * LE256(s[k..])
  {
    if k > 0 {
      LE256Split(s[1..], k - 1);
      assert s[1..][..k - 1] == s[..k][1..];
      assert s[1..][k - 1..] == s[k..];
      Pow2Byte(k - 1);
      var p := Pow2(8 * (k - 1));
      Distrib(256, LE256(s[..k][1..]), p * LE256(s[k..]));
      Assoc(256, p, LE256(s[k..]));
    }
  }

  /** Two byte strings of one length that spell the same number are equal. */
  lemma {:induction false} LE256Injective(s: seq<Byte>, t: seq<Byte>)
    requires |s| == |t| && LE256(s) == LE256(t)
    ensures s == t
  {
    if |s| > 0 {
      DivModUnique(LE256(s), 256, LE256(s[1..]), s[0]);
      DivModUnique(LE256(t), 256, LE256(t[1..]), t[0]);
      LE256Injective(s[1..], t[1..]);
      assert s == [s[0]] + s[1..];
      assert t == [t[0]] + t[1..];
    }
  }

  lemma {:induction false} LE256FirstByte(s: seq<Byte>)
    requires |s| > 0
    ensures LE256(s) % 256 == s[0]
  {
    DivModUnique(LE256(s), 256, LE256(s[1..]), s[0]);
  }

  lemma {:induction false} ModMul(x: nat, a: nat, p: nat)
    requires a > 0 && p > 0
    ensures x % (a * p) == x % a + a * (x / a % p)
  {
    var q, r := x / a / p, x / a % p;
    assert x / a == p * q + r;
    assert x == a * (x / a) + x % a;
    Distrib(a, p * q, r);
    Assoc(a, p, q);
    MulMonotone(a, r, p - 1);
    Distrib(a, p, 1);
    DivModUnique(x, a * p, q, x % a + a * r);
  }

  lemma {:induction false} LE256Concat(a: seq<Byte>, b: seq<Byte>)
    ensures LE256(a + b) == LE256(a) + Pow2(8 * |a|) * LE256(b)
  {
    LE256Split(a + b, |a|);
    assert (a + b)[..|a|] == a && (a + b)[|a|..] == b;
  }

  /** Digit `k` is bits 5k..5k+4 of `x`. */
  lemma {:induction false} Digits32At(x: nat, count: nat, k: nat)
    requires k < count
    ensures Digits32(x, count)[k] == x / Pow2(5 * k) % 32
  {
    if k > 0 {
      var ds := Digits32(x, count);
      assert ds[k] == Digits32(x / 32, count - 1)[k - 1];
      Digits32At(x / 32, count - 1, k - 1);
      var p := Pow2(5 * (k - 1));
      Pow2Symbol(k - 1);
      assert Pow2(5 * k) == 32 * p;
      DivDiv(x, 32, p);
    }
  }

  /** `x` with its `a` lowest base-32 digits dropped. */
  function DropDigits(x: nat, a: nat): nat
  {
    if a == 0 then x else DropDigits(x / 32, a - 1)
  }

  /** The digits of `x` are its low `a` digits followed by the digits of what is above them. */
  lemma {:induction false} Digits32Split(x: nat, a: nat, b: nat)
    ensures Digits32(x, a + b) == Digits32(x, a) + Digits32(DropDigits(x, a), b)
  {
    if a > 0 {
      Digits32Split(x / 32, a - 1, b);
      assert Digits32(x, a + b) == [x % 32] + Digits32(x / 32, a - 1 + b);
    }
  }

  /** The `count` lowest base-256 digits of `x`, least significant first. */
  function Digits256(x: nat, count: nat): (bs: seq<Byte>)
    ensures |bs| == count
  {
    if count == 0 then [] else [x % 256] + Digits256(x / 256, count - 1)
  }

  /** The bytes spell the number back, up to the bits they cover. */
  lemma {:induction false} Digits256Value(x: nat, count: nat)
    ensures LE256(Digits256(x, count)) == x % Pow2(8 * count)
  {
    if count > 0 {
      var bs := Digits256(x, count);
      assert bs[1..] == Digits256(x / 256, count - 1);
      Digits256Value(x / 256, count - 1);
      Pow2Byte(count - 1);
      ModMul(x, 256, Pow2(8 * (count - 1)));
    }
  }

  /** A byte string is the base-256 digits of its own number. */
  lemma {:induction false} BytesAreDigits(s: seq<Byte>)
    ensures Digits256(LE256(s), |s|) == s
  {
    Digits256Value(LE256(s), |s|);
    LE256Bound(s);
    DivModUnique(LE256(s), Pow2(8 * |s|), 0, LE256(s));
    LE256Injective(Digits256(LE256(s), |s|), s);
  }
}
