/** Sequences without one element, and sums over sequences.

    A sum is over what a function makes of each element, as for block sizes or node counts. */
module Sequences {
  function Without<T>(s: seq<T>, i: nat): (r: seq<T>)
    requires i < |s|
    ensures |r| == |s| - 1
    ensures forall j | 0 <= j < |r| :: r[j] == s[if j < i then j else j + 1]
  {
    s[..i] + s[i + 1..]
  }

  function Sum<T>(s: seq<T>, f: T -> nat): nat {
    if s == [] then 0 else Sum(s[..|s| - 1], f) + f(s[|s| - 1])
  }

  lemma {:induction false} SumOfUpdate<T>(s: seq<T>, f: T -> nat, k: nat, x: T)
    requires k < |s|
    ensures Sum(s[k := x], f) + f(s[k]) == Sum(s, f) + f(x)
  {
    var last := |s| - 1;
    if k == last {
      assert s[k := x][..last] == s[..last];
    } else {
      assert s[k := x][..last] == s[..last][k := x];
      SumOfUpdate(s[..last], f, k, x);
    }
  }

  lemma {:induction false} SumOfPrefix<T>(s: seq<T>, f: T -> nat, k: nat)
    requires k <= |s|
    ensures Sum(s[..k], f) <= Sum(s, f)
    ensures (forall i | k <= i < |s| :: f(s[i]) == 0) ==> Sum(s[..k], f) == Sum(s, f)
  {
    if k == |s| {
      assert s[..k] == s;
    } else {
      var last := |s| - 1;
      assert s[..last][..k] == s[..k];
      SumOfPrefix(s[..last], f, k);
    }
  }

  lemma SumOfOneMore<T>(s: seq<T>, f: T -> nat, k: nat)
    requires k < |s|
    ensures Sum(s[..k + 1], f) == Sum(s[..k], f) + f(s[k])
  {
    assert s[..k + 1][..k] == s[..k];
  }

  lemma {:induction false} SumOfSplit<T>(s: seq<T>, f: T -> nat, k: nat)
    requires k <= |s|
    ensures Sum(s, f) == Sum(s[..k], f) + Sum(s[k..], f)
  {
    if k == |s| {
      assert s[..k] == s;
    } else {
      var last := |s| - 1;
      assert s[..last][..k] == s[..k] && s[..last][k..] == s[k..][..|s| - k - 1];
      SumOfSplit(s[..last], f, k);
    }
  }

  lemma SumOfAppend<T>(s: seq<T>, f: T -> nat, x: T)
    ensures Sum(s + [x], f) == Sum(s, f) + f(x)
  {
    assert (s + [x])[..|s|] == s;
  }
}
