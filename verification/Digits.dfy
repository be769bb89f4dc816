/** Numbers as digit sequences in any base, least significant digit first. */
module Digits {

  import opened Powers

  predicate Below(b: nat, s: seq<nat>) { forall i | 0 <= i < |s| :: s[i] < b }

  function Val(b: nat, s: seq<nat>): nat {
    if s == [] then 0 else Val(b, s[..|s| - 1]) + s[|s| - 1] * Pow(b, |s| - 1)
  }

  lemma ValNext(b: nat, s: seq<nat>, i: nat)
    requires i < |s|
    ensures Val(b, s[..i + 1]) == Val(b, s[..i]) + s[i] * Pow(b, i)
  {
    assert s[..i + 1][..i] == s[..i];
  }

  lemma {:induction false} ValBound(b: nat, s: seq<nat>)
    requires Below(b, s)
    ensures Val(b, s) < Pow(b, |s|)
  {
    if s != [] {
      var n, p := |s| - 1, Pow(b, |s| - 1);
      ValBound(b, s[..n]);
      MulMono(s[n] + 1, b, p);
      MulDistrib(s[n], 1, p);
    }
  }

  lemma {:induction false} ValZero(b: nat, s: seq<nat>)
    requires forall i | 0 <= i < |s| :: s[i] == 0
    ensures Val(b, s) == 0
  {
    if s != [] { ValZero(b, s[..|s| - 1]); }
  }

  lemma {:induction false} ValSet(b: nat, s: seq<nat>, j: nat, v: nat)
    requires j < |s|
    ensures Val(b, s[j := v]) == Val(b, s) + (v - s[j]) * Pow(b, j)
  {
    var n := |s| - 1;
    if j == n {
      assert s[j := v][..n] == s[..n];
      MulDistrib(v, s[j], Pow(b, j));
    } else {
      ValSet(b, s[..n], j, v);
      assert s[j := v][..n] == s[..n][j := v];
    }
  }

  /** Low digits, and high digits scaled up. */
  lemma {:induction false} ValSplit(b: nat, s: seq<nat>, m: nat)
    requires m <= |s|
    ensures Val(b, s) == Val(b, s[..m]) + Pow(b, m) * Val(b, s[m..])
  {
    hide Pow, Val;
    if m == |s| {
      assert s[..m] == s;
      ValZero(b, s[m..]);
    } else {
      var n := |s| - 1;
      ValSplit(b, s[..n], m);
      assert s[..n][..m] == s[..m] && s[..n][m..] == s[m..n] && s[m..][..n - m] == s[m..n] && s[m..][n - m] == s[n];
      ValNext(b, s, n);
      ValNext(b, s[m..], n - m);
      assert s[..n + 1] == s && s[m..][..n - m + 1] == s[m..];
      PowAdd(b, m, n - m);
      Scale(Pow(b, m), Val(b, s[m..n]), s[n], Pow(b, n - m));
    }
  }

  lemma Scale(p: nat, v: nat, d: nat, q: nat)
    ensures p * (v + d * q) == p * v + d * (p * q)
  {
    assert p * (d * q) == d * (p * q);
  }

  /** Digit sequences of the same length with the same value are the same. */
  lemma {:induction false} ValInjective(b: nat, s: seq<nat>, t: seq<nat>)
    requires |s| == |t| && Below(b, s) && Below(b, t) && Val(b, s) == Val(b, t)
    ensures s == t
  {
    if s != [] {
      var n, p := |s| - 1, Pow(b, |s| - 1);
      ValBound(b, s[..n]);
      ValBound(b, t[..n]);
      DivModUnique(Val(b, s), p, s[n], Val(b, s[..n]));
      DivModUnique(Val(b, t), p, t[n], Val(b, t[..n]));
      ValInjective(b, s[..n], t[..n]);
    }
  }

  /** The highest digit in which two numbers differ decides. */
  lemma ValCompare(b: nat, s: seq<nat>, t: seq<nat>, i: nat)
    requires |s| == |t| && Below(b, s) && Below(b, t) && i < |s| && s[i + 1..] == t[i + 1..] && s[i] < t[i]
    ensures Val(b, s) < Val(b, t)
  {
    hide Val, Pow;
    var p := Pow(b, i);
    ValSplit(b, s, i + 1);
    ValSplit(b, t, i + 1);
    ValNext(b, s, i);
    ValNext(b, t, i);
    ValBound(b, s[..i]);
    MulMono(s[i] + 1, t[i], p);
    MulDistrib(s[i], 1, p);
  }
}
