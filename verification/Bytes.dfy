/** Byte strings, the fixed-width integer codings the system uses, and the order in which its
    key-value stores iterate. */
module Bytes {
  import opened Arithmetic

  type byte = b: int | 0 <= b < 256
  type u64 = n: int | 0 <= n < 0x1_0000_0000_0000_0000
  type i64 = n: int | -0x8000_0000_0000_0000 <= n < 0x8000_0000_0000_0000

  const TWO64: int := 0x1_0000_0000_0000_0000

  /** A 32-byte hash. */
  type Hash = s: seq<byte> | |s| == 32 witness seq(32, _ => 0)

  type Hasher = seq<byte> -> Hash

  datatype Option<+T> = None | Some(value: T)

  /** Go's `uint64(x)` for a signed 64-bit `x`. */
  function ToU64(x: i64): (r: u64)
    ensures (r - x) % TWO64 == 0
  {
    if x < 0 then x + TWO64 else x
  }

  /** Go's `int64(x)` for an unsigned 64-bit `x`. */
  function ToI64(x: u64): (r: i64)
    ensures (r - x) % TWO64 == 0
  {
    if x < 0x8000_0000_0000_0000 then x else x - TWO64
  }

  /** Unsigned 64-bit arithmetic wraps. */
  function Wrap(n: int): u64 {
    n % TWO64
  }

  function Pow256(n: nat): nat
    ensures Pow256(n) > 0
  {
    if n == 0 then 1 else 256 * Pow256(n - 1)
  }

  lemma Pow256Eight()
    ensures Pow256(8) == TWO64
  {
    assert Pow256(2) == 0x1_0000;
    assert Pow256(4) == 0x1_0000_0000;
    assert Pow256(6) == 0x1_0000_0000_0000;
  }

  lemma {:induction false} Pow256Monotone(m: nat, n: nat)
    requires m <= n
    ensures Pow256(m) <= Pow256(n)
  {
    if m < n { Pow256Monotone(m, n - 1); }
  }

  lemma ConcatAssociative(a: seq<byte>, b: seq<byte>, c: seq<byte>)
    ensures a + (b + c) == (a + b) + c
  {
  }

  // ----- big-endian, w bytes -----

  function BE(n: nat, w: nat): (s: seq<byte>)
    ensures |s| == w
    decreases w, n
  {
    if w == 0 then [] else BE(n / 256, w - 1) + [n % 256]
  }

  function FromBE(s: seq<byte>): nat {
    if s == [] then 0 else FromBE(s[..|s| - 1]) * 256 + s[|s| - 1]
  }

  lemma {:induction false} FromBEOfBE(n: nat, w: nat)
    requires n < Pow256(w)
    ensures FromBE(BE(n, w)) == n
    decreases w
  {
    if w > 0 {
      FromBEOfBE(n / 256, w - 1);
      assert BE(n, w)[..w - 1] == BE(n / 256, w - 1);
    }
  }

  lemma {:induction false} FromBEBound(s: seq<byte>)
    ensures FromBE(s) < Pow256(|s|)
  {
    if s != [] {
      FromBEBound(s[..|s| - 1]);
    }
  }

  lemma {:induction false} FromBEConcat(a: seq<byte>, b: seq<byte>)
    ensures FromBE(a + b) == FromBE(a) * Pow256(|b|) + FromBE(b)
    decreases |b|
  {
    if b == [] {
      assert a + b == a;
    } else {
      var front := b[..|b| - 1];
      assert (a + b)[..|a + b| - 1] == a + front;
      FromBEConcat(a, front);
      assert FromBE(a) * Pow256(|b|) == FromBE(a) * Pow256(|front|) * 256;
    }
  }

  lemma {:induction false} FromBEZeros(s: seq<byte>)
    requires forall i :: 0 <= i < |s| ==> s[i] == 0
    ensures FromBE(s) == 0
  {
    if s != [] { FromBEZeros(s[..|s| - 1]); }
  }

  /** The low w bytes are the number modulo 256^w. */
  lemma LowBytes(s: seq<byte>, w: nat)
    requires w <= |s|
    ensures FromBE(s[|s| - w..]) == FromBE(s) % Pow256(w)
  {
    var high, low := s[..|s| - w], s[|s| - w..];
    assert s == high + low;
    FromBEConcat(high, low);
    FromBEBound(low);
    QuotientOf(FromBE(high), Pow256(w), FromBE(low), FromBE(s));
  }

  lemma ZeroPadded(s: seq<byte>, zeros: seq<byte>, w: nat)
    requires |zeros| + |s| == w && forall i :: 0 <= i < |zeros| ==> zeros[i] == 0
    ensures FromBE(zeros + s) == FromBE(s) % Pow256(w)
  {
    FromBEZeros(zeros);
    FromBEConcat(zeros, s);
    FromBEBound(s);
    Pow256Monotone(|s|, w);
    QuotientOf(0, Pow256(w), FromBE(s), FromBE(s));
  }

  lemma EightBytesFit(s: seq<byte>)
    requires |s| == 8
    ensures FromBE(s) < TWO64
  {
    Pow256Eight();
    FromBEBound(s);
  }

  lemma {:induction false} BEOfFromBE(s: seq<byte>)
    ensures BE(FromBE(s), |s|) == s
  {
    if s != [] {
      var front := s[..|s| - 1];
      BEOfFromBE(front);
      assert FromBE(s) / 256 == FromBE(front) && FromBE(s) % 256 == s[|s| - 1];
      assert s == front + [s[|s| - 1]];
    }
  }

  // ----- little-endian, w bytes -----

  function LE(n: nat, w: nat): (s: seq<byte>)
    ensures |s| == w
    decreases w, n
  {
    if w == 0 then [] else [n % 256] + LE(n / 256, w - 1)
  }

  function FromLE(s: seq<byte>): (n: nat)
    ensures n < Pow256(|s|)
  {
    if s == [] then 0 else s[0] + 256 * FromLE(s[1..])
  }

  lemma {:induction false} FromLEOfLE(n: nat, w: nat)
    requires n < Pow256(w)
    ensures FromLE(LE(n, w)) == n
    decreases w
  {
    if w > 0 {
      FromLEOfLE(n / 256, w - 1);
      assert LE(n, w)[1..] == LE(n / 256, w - 1);
    }
  }

  lemma {:induction false} LEOfFromLE(s: seq<byte>)
    ensures LE(FromLE(s), |s|) == s
  {
    if s != [] {
      LEOfFromLE(s[1..]);
      assert FromLE(s) % 256 == s[0] && FromLE(s) / 256 == FromLE(s[1..]);
    }
  }

  /** Byte i of the little-endian form is digit i of the number to base 256. */
  lemma {:induction false} LEByte(n: nat, w: nat, i: nat)
    requires i < w
    ensures LE(n, w)[i] == n / Pow256(i) % 256
    decreases w
  {
    if i > 0 {
      LEByte(n / 256, w - 1, i - 1);
      assert LE(n, w)[i] == LE(n / 256, w - 1)[i - 1];
      QuotientOfQuotient(n, 256, Pow256(i - 1));
    }
  }

  /** The big-endian form is the little-endian one backwards. */
  lemma {:induction false} BEByte(n: nat, w: nat, i: nat)
    requires i < w
    ensures BE(n, w)[w - 1 - i] == n / Pow256(i) % 256
    decreases w
  {
    if i > 0 {
      BEByte(n / 256, w - 1, i - 1);
      assert BE(n, w)[w - 1 - i] == BE(n / 256, w - 1)[w - 1 - i];
      QuotientOfQuotient(n, 256, Pow256(i - 1));
    }
  }

  function LE8(n: u64): (s: seq<byte>)
    ensures |s| == 8
  {
    LE(n, 8)
  }

  function FromLE8(s: seq<byte>): u64
    requires |s| == 8
  {
    Pow256Eight();
    FromLE(s)
  }

  lemma LE8RoundTrip(n: u64)
    ensures FromLE8(LE8(n)) == n
  {
    Pow256Eight();
    FromLEOfLE(n, 8);
  }

  lemma LE8Injective(a: u64, b: u64)
    requires LE8(a) == LE8(b)
    ensures a == b
  {
    LE8RoundTrip(a);
    LE8RoundTrip(b);
  }

  function BE8(n: u64): (s: seq<byte>)
    ensures |s| == 8
  {
    BE(n, 8)
  }

  lemma BE8RoundTrip(n: u64)
    ensures FromBE(BE8(n)) == n
  {
    Pow256Eight();
    FromBEOfBE(n, 8);
  }

  // ----- minimal big-endian (math/big's Bytes, RLP integers and lengths) -----

  function MinBE(n: nat): seq<byte> {
    if n == 0 then [] else MinBE(n / 256) + [n % 256]
  }

  lemma {:induction false} FromBEOfMinBE(n: nat)
    ensures FromBE(MinBE(n)) == n
  {
    if n > 0 {
      FromBEOfMinBE(n / 256);
      assert MinBE(n)[..|MinBE(n)| - 1] == MinBE(n / 256);
    }
  }

  lemma {:induction false} MinBELength(n: nat, w: nat)
    requires n < Pow256(w)
    ensures |MinBE(n)| <= w
    ensures n > 0 ==> |MinBE(n)| > 0
    decreases w
  {
    if n > 0 {
      MinBELength(n / 256, w - 1);
    }
  }

  lemma {:induction false} MinBEIsMinimal(n: nat)
    requires n > 0
    ensures MinBE(n) != [] && MinBE(n)[0] != 0
  {
    if n >= 256 {
      MinBEIsMinimal(n / 256);
    } else {
      assert MinBE(n / 256) == [];
    }
  }

  // ----- the lexicographic order of store keys -----

  predicate LexLt(a: seq<byte>, b: seq<byte>) {
    b != [] && (a == [] || a[0] < b[0] || (a[0] == b[0] && LexLt(a[1..], b[1..])))
  }

  predicate LexLe(a: seq<byte>, b: seq<byte>) {
    a == b || LexLt(a, b)
  }

  lemma {:induction false} LexIrreflexive(a: seq<byte>)
    ensures !LexLt(a, a)
  {
    if a != [] {
      LexIrreflexive(a[1..]);
    }
  }

  lemma {:induction false} LexTransitive(a: seq<byte>, b: seq<byte>, c: seq<byte>)
    requires LexLt(a, b) && LexLt(b, c)
    ensures LexLt(a, c)
  {
    if a != [] && a[0] == b[0] == c[0] {
      LexTransitive(a[1..], b[1..], c[1..]);
    }
  }

  lemma {:induction false} LexTotal(a: seq<byte>, b: seq<byte>)
    ensures a == b || LexLt(a, b) || LexLt(b, a)
  {
    if a != [] && b != [] && a[0] == b[0] {
      LexTotal(a[1..], b[1..]);
      assert a == [a[0]] + a[1..] && b == [b[0]] + b[1..];
    }
  }

  /** Blocks of equal length compare first; their tails decide ties. */
  lemma {:induction false} LexConcat(p: seq<byte>, a: seq<byte>, q: seq<byte>, b: seq<byte>)
    requires |p| == |q|
    ensures LexLt(p + a, q + b) <==> LexLt(p, q) || (p == q && LexLt(a, b))
  {
    if p == [] {
      assert p + a == a && q + b == b;
    } else {
      assert (p + a)[1..] == p[1..] + a && (q + b)[1..] == q[1..] + b;
      LexConcat(p[1..], a, q[1..], b);
      assert p == [p[0]] + p[1..] && q == [q[0]] + q[1..];
    }
  }

  /** Big-endian coding turns numeric order into lexicographic order. */
  lemma {:induction false} BEOrder(m: nat, n: nat, w: nat)
    requires m < Pow256(w) && n < Pow256(w)
    ensures LexLt(BE(m, w), BE(n, w)) <==> m < n
    decreases w
  {
    if w > 0 {
      BEOrder(m / 256, n / 256, w - 1);
      LexConcat(BE(m / 256, w - 1), [m % 256], BE(n / 256, w - 1), [n % 256]);
      if BE(m / 256, w - 1) == BE(n / 256, w - 1) {
        FromBEOfBE(m / 256, w - 1);
        FromBEOfBE(n / 256, w - 1);
      }
      assert !LexLt([], []);
    }
  }

  /** Byte strings of equal length are ordered as the numbers they spell. */
  lemma FromBEOrder(a: seq<byte>, b: seq<byte>)
    requires |a| == |b|
    ensures LexLt(a, b) <==> FromBE(a) < FromBE(b)
    ensures a == b <==> FromBE(a) == FromBE(b)
  {
    FromBEBound(a);
    FromBEBound(b);
    BEOfFromBE(a);
    BEOfFromBE(b);
    BEOrder(FromBE(a), FromBE(b), |a|);
  }

  lemma BE8Order(m: u64, n: u64)
    ensures LexLt(BE8(m), BE8(n)) <==> m < n
    ensures BE8(m) == BE8(n) <==> m == n
  {
    Pow256Eight();
    BEOrder(m, n, 8);
    BE8RoundTrip(m);
    BE8RoundTrip(n);
  }

  // ----- keys in iteration order -----

  predicate IsLeast(k: seq<byte>, s: set<seq<byte>>) {
    k in s && forall x :: x in s ==> LexLe(k, x)
  }

  lemma {:induction false} LeastExists(s: set<seq<byte>>)
    requires s != {}
    ensures exists k :: IsLeast(k, s)
  {
    var x :| x in s;
    var rest := s - {x};
    if rest == {} {
      assert s == {x};
      assert IsLeast(x, s);
    } else {
      LeastExists(rest);
      var k :| IsLeast(k, rest);
      LexTotal(x, k);
      if LexLt(x, k) {
        forall y | y in s ensures LexLe(x, y) {
          if y != x && y != k { assert y in rest; LexTransitive(x, k, y); }
        }
        assert IsLeast(x, s);
      } else {
        assert IsLeast(k, s);
      }
    }
  }

  lemma LeastUnique(s: set<seq<byte>>, a: seq<byte>, b: seq<byte>)
    requires IsLeast(a, s) && IsLeast(b, s)
    ensures a == b
  {
    if a != b {
      LexTransitive(a, b, a);
      LexIrreflexive(a);
    }
  }

  /** The keys of a set in the order a store iterator yields them. */
  function InOrder(s: set<seq<byte>>): (ks: seq<seq<byte>>)
    ensures forall k :: k in ks <==> k in s
    ensures forall i :: 0 <= i < |ks| ==> ks[i] in s
    decreases |s|
  {
    if s == {} then []
    else
      LeastExists(s);
      assert forall a, b :: IsLeast(a, s) && IsLeast(b, s) ==> a == b by {
        forall a, b | IsLeast(a, s) && IsLeast(b, s) ensures a == b { LeastUnique(s, a, b); }
      }
      var k :| IsLeast(k, s);
      [k] + InOrder(s - {k})
  }

  ghost predicate Ascending(ks: seq<seq<byte>>) {
    forall i, j :: 0 <= i < j < |ks| ==> LexLt(ks[i], ks[j])
  }

  lemma {:induction false} InOrderAscending(s: set<seq<byte>>)
    ensures Ascending(InOrder(s))
    decreases |s|
  {
    if s != {} {
      var ks := InOrder(s);
      var rest := s - {ks[0]};
      assert IsLeast(ks[0], s) && ks[1..] == InOrder(rest) by { LeastExists(s); }
      InOrderAscending(rest);
      forall i, j | 0 <= i < j < |ks| ensures LexLt(ks[i], ks[j]) {
        assert ks[j] == InOrder(rest)[j - 1];
        assert ks[j] in rest;
        if i > 0 { assert ks[i] == InOrder(rest)[i - 1]; }
      }
    }
  }
}
