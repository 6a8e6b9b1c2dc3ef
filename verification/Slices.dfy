/** Cutting sequences at the joints of a concatenation, and slices of slices. */
module Slices {

  lemma {:induction false} SubSlice<T>(s: seq<T>, i: nat, j: nat, k: nat, l: nat)
    requires i <= j <= |s| && k <= l <= j - i
    ensures s[i..j][k..l] == s[i + k..i + l]
  {
    var x, y := s[i..j][k..l], s[i + k..i + l];
    assert |x| == |y|;
    forall m | 0 <= m < |x| ensures x[m] == y[m] {
      assert x[m] == s[i..j][k + m] == s[i + k + m];
    }
  }

  lemma {:induction false} Cut3<T>(s: seq<T>, p: seq<T>, q: seq<T>, r: seq<T>)
    ensures var (i, j) := (|p|, |p| + |q|);
      s == p + q + r <==> |s| == j + |r| && s[..i] == p && s[i..j] == q && s[j..] == r
  {
    var i, j := |p|, |p| + |q|;
    if s == p + q + r {
      assert s[..i] == p && s[i..j] == q && s[j..] == r;
    }
    if |s| == j + |r| {
      assert s == s[..i] + s[i..j] + s[j..];
    }
  }

  lemma {:induction false} Cut4<T>(s: seq<T>, p: seq<T>, q: seq<T>, r: seq<T>, t: seq<T>)
    ensures var (i, j, k) := (|p|, |p| + |q|, |p| + |q| + |r|);
      s == p + q + r + t <==> |s| == k + |t| && s[..i] == p && s[i..j] == q && s[j..k] == r && s[k..] == t
  {
    var i, j, k := |p|, |p| + |q|, |p| + |q| + |r|;
    if s == p + q + r + t {
      assert s[..i] == p && s[i..j] == q && s[j..k] == r && s[k..] == t;
    }
    if |s| == k + |t| {
      assert s == s[..i] + s[i..j] + s[j..k] + s[k..];
    }
  }
}
