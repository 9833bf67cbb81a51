/** Sums of a weight table over a list of indices, in any order. */
module Sums {

  /** All entries of s are indices below n. */
  predicate Below(s: seq<nat>, n: nat) {
    forall i :: 0 <= i < |s| ==> s[i] < n
  }

  function Sum(w: seq<nat>, s: seq<nat>): nat
    requires Below(s, |w|)
  {
    if s == [] then 0 else w[s[0]] + Sum(w, s[1..])
  }

  lemma {:induction false} SumAppend(w: seq<nat>, a: seq<nat>, b: seq<nat>)
    requires Below(a, |w|) && Below(b, |w|)
    ensures Below(a + b, |w|) && Sum(w, a + b) == Sum(w, a) + Sum(w, b)
  {
    if a == [] {
      assert a + b == b;
    } else {
      SumAppend(w, a[1..], b);
      assert (a + b)[1..] == a[1..] + b;
    }
  }

  lemma SumSnoc(w: seq<nat>, a: seq<nat>, x: nat)
    requires Below(a, |w|) && x < |w|
    ensures Below(a + [x], |w|) && Sum(w, a + [x]) == Sum(w, a) + w[x]
  {
    SumAppend(w, a, [x]);
    assert [x][1..] == [];
  }

  lemma BelowMultiset(a: seq<nat>, b: seq<nat>, n: nat)
    requires multiset(a) == multiset(b) && Below(a, n)
    ensures Below(b, n)
  {
    forall i | 0 <= i < |b| ensures b[i] < n {
      assert b[i] in multiset(b);
      assert b[i] in a;
    }
  }

  lemma Cancel(a: multiset<nat>, b: multiset<nat>, x: nat)
    requires a + multiset{x} == b + multiset{x}
    ensures a == b
  {
    forall y: nat ensures a[y] == b[y] {
      assert (a + multiset{x})[y] == (b + multiset{x})[y];
    }
  }

  lemma DropSame(a: seq<nat>, b: seq<nat>, i: nat)
    requires a != [] && i < |b| && a[0] == b[i] && multiset(a) == multiset(b)
    ensures multiset(a[1..]) == multiset(b[..i] + b[i + 1..])
  {
    var x, l, r := a[0], b[..i], b[i + 1..];
    calc {
      multiset(a[1..]) + multiset{x};
      { assert a == [x] + a[1..]; }
      multiset(b);
      { assert b == (l + [x]) + r; }
      multiset(l) + multiset{x} + multiset(r);
      multiset(l + r) + multiset{x};
    }
    Cancel(multiset(a[1..]), multiset(l + r), x);
  }

  lemma SumDrop(w: seq<nat>, b: seq<nat>, i: nat)
    requires Below(b, |w|) && i < |b|
    ensures Below(b[..i] + b[i + 1..], |w|)
    ensures Sum(w, b) == w[b[i]] + Sum(w, b[..i] + b[i + 1..])
  {
    var l, r := b[..i], b[i + 1..];
    assert b == l + ([b[i]] + r);
    SumAppend(w, l, r);
    SumAppend(w, l, [b[i]] + r);
    assert ([b[i]] + r)[1..] == r;
  }

  /** The order of the indices does not matter. */
  lemma {:induction false} SumMultiset(w: seq<nat>, a: seq<nat>, b: seq<nat>)
    requires Below(a, |w|) && Below(b, |w|) && multiset(a) == multiset(b)
    ensures Sum(w, a) == Sum(w, b)
    decreases |a|
  {
    assert |a| == |multiset(a)| && |b| == |multiset(b)|;
    if a != [] {
      assert a[0] in multiset(b);
      var i :| 0 <= i < |b| && b[i] == a[0];
      DropSame(a, b, i);
      SumDrop(w, b, i);
      SumMultiset(w, a[1..], b[..i] + b[i + 1..]);
    }
  }

  /** Tables that agree on the indices have the same sum. */
  lemma {:induction false} SumAgree(w: seq<nat>, v: seq<nat>, s: seq<nat>)
    requires Below(s, |w|) && Below(s, |v|)
    requires forall i :: 0 <= i < |s| ==> w[s[i]] == v[s[i]]
    ensures Sum(w, s) == Sum(v, s)
  {
    if s != [] { SumAgree(w, v, s[1..]); }
  }
}
