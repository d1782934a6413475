/** Byte strings and `compare_unsigned`. */
module Bytes {
  import opened Basics

  type Byte = b: int | 0 <= b < 256

  type bytes = seq<Byte>

  /** Where the two strings first differ, or the length of the shorter one. */
  function Mismatch(a: bytes, b: bytes): (n: nat)
    ensures n <= |a| && n <= |b| && a[..n] == b[..n]
    ensures n < |a| && n < |b| ==> a[n] != b[n]
  {
    if a == [] || b == [] || a[0] != b[0] then 0
    else
      assert a == [a[0]] + a[1..] && b == [b[0]] + b[1..];
      1 + Mismatch(a[1..], b[1..])
  }

  /** `compare_unsigned`: `memcmp` over the common length, then the lengths. */
  function CompareUnsigned(a: bytes, b: bytes): (r: int)
    ensures r in {-1, 0, 1} && (r == 0 <==> a == b)
  {
    var n := Mismatch(a, b);
    if n < |a| && n < |b| then Sign(a[n], b[n]) else Sign(|a|, |b|)
  }

  lemma CompareAt(a: bytes, b: bytes, n: nat)
    requires n <= |a| && n <= |b| && a[..n] == b[..n]
    ensures n < |a| && n < |b| && a[n] != b[n] ==> CompareUnsigned(a, b) == Sign(a[n], b[n])
    ensures n == |a| || n == |b| ==> CompareUnsigned(a, b) == Sign(|a|, |b|)
  {
    var m := Mismatch(a, b);
    forall i | 0 <= i < n ensures a[i] == b[i] {
      assert a[..n][i] == b[..n][i];
    }
    forall i | 0 <= i < m ensures a[i] == b[i] {
      assert a[..m][i] == b[..m][i];
    }
  }

  /** Longer than a proper prefix, or larger at the first difference. */
  ghost predicate Larger(a: bytes, b: bytes) {
    || (|b| < |a| && a[..|b|] == b)
    || exists i :: 0 <= i < |a| && i < |b| && a[..i] == b[..i] && a[i] > b[i]
  }

  lemma CompareMeans(a: bytes, b: bytes)
    ensures CompareUnsigned(a, b) > 0 <==> Larger(a, b)
  {
    var n := Mismatch(a, b);
    assert n == |b| < |a| ==> a[..|b|] == b[..|b|] == b;
    if Larger(a, b) && !(|b| < |a| && a[..|b|] == b) {
      var i :| 0 <= i < |a| && i < |b| && a[..i] == b[..i] && a[i] > b[i];
      CompareAt(a, b, i);
    } else if Larger(a, b) {
      CompareAt(a, b, |b|);
    }
  }

  lemma CompareAntisymmetric(a: bytes, b: bytes)
    ensures CompareUnsigned(a, b) == -CompareUnsigned(b, a)
  {
    CompareAt(b, a, Mismatch(a, b));
  }

  lemma CompareTransitive(a: bytes, b: bytes, c: bytes)
    requires CompareUnsigned(a, b) <= 0 && CompareUnsigned(b, c) <= 0
    ensures CompareUnsigned(a, c) <= 0
  {
    var m, n := Mismatch(a, b), Mismatch(b, c);
    if m <= n {
      assert a[..m] == b[..m] == b[..n][..m] == c[..n][..m] == c[..m];
      CompareAt(a, c, m);
    } else {
      assert a[..n] == a[..m][..n] == b[..m][..n] == b[..n] == c[..n];
      CompareAt(a, c, n);
    }
  }

  /** Equal prefixes do not matter. */
  lemma CompareCommonPrefix(p: bytes, a: bytes, b: bytes)
    ensures CompareUnsigned(p + a, p + b) == CompareUnsigned(a, b)
  {
    var n := Mismatch(a, b);
    assert (p + a)[..|p| + n] == p + a[..n] && (p + b)[..|p| + n] == p + b[..n];
    CompareAt(p + a, p + b, |p| + n);
  }
}
