/** Big-endian positional numerals: the common yardstick for base64, hex keys and headers. */
module Numerals {

  ghost predicate Digits(ds: seq<nat>, base: nat) {
    forall i :: 0 <= i < |ds| ==> ds[i] < base
  }

  ghost function Numeral(ds: seq<nat>, base: nat): nat {
    if ds == [] then 0
    else Numeral(ds[..|ds| - 1], base) * base + ds[|ds| - 1]
  }

  lemma NumeralSnoc(ds: seq<nat>, d: nat, base: nat)
    ensures Numeral(ds + [d], base) == Numeral(ds, base) * base + d
  {
    assert (ds + [d])[..|ds|] == ds;
  }

  lemma QuotientRemainderUnique(q: nat, r: nat, q': nat, r': nat, base: nat)
    requires r < base && r' < base
    requires q * base + r == q' * base + r'
    ensures q == q' && r == r'
  {
    assert q < q' ==> (q + 1) * base <= q' * base;
    assert q' < q ==> (q' + 1) * base <= q * base;
  }

  /** Two numerals of one length and one value are the same digits. */
  lemma {:induction false} NumeralInjective(a: seq<nat>, b: seq<nat>, base: nat)
    requires |a| == |b| && Digits(a, base) && Digits(b, base)
    requires Numeral(a, base) == Numeral(b, base)
    ensures a == b
  {
    if a != [] {
      var n := |a| - 1;
      QuotientRemainderUnique(Numeral(a[..n], base), a[n], Numeral(b[..n], base), b[n], base);
      NumeralInjective(a[..n], b[..n], base);
      assert a == a[..n] + [a[n]];
      assert b == b[..n] + [b[n]];
    }
  }
}
