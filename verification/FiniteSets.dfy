/** Sizes of finite sets of numbers. */
module FiniteSets {
  lemma SubsetSize(a: set<nat>, b: set<nat>)
    requires a <= b
    ensures |a| <= |b|
  {
    assert b == a + (b - a);
  }

  lemma UnionSize(a: set<nat>, b: set<nat>)
    ensures |a + b| <= |a| + |b|
  {
    assert a + b == a + (b - a);
    SubsetSize(b - a, b);
  }

  lemma AtMostOne(s: set<nat>, a: nat, b: nat)
    requires |s| <= 1 && b in s
    ensures a in s <==> a == b
  {
    if a in s && a != b {
      SubsetSize({a, b}, s);
    }
  }

  lemma {:induction false} InjectiveSize(m: map<nat, nat>)
    requires forall a, b :: a in m && b in m && m[a] == m[b] ==> a == b
    ensures |m.Keys| == |m.Values|
    decreases |m|
  {
    if m != map[] {
      var k :| k in m;
      var rest := m - {k};
      WithoutKey(m, k);
      InjectiveSize(rest);
    }
  }

  lemma WithoutKey(m: map<nat, nat>, k: nat)
    requires k in m
    ensures m.Keys == (m - {k}).Keys + {k}
    ensures m.Values == (m - {k}).Values + {m[k]}
    ensures forall a :: a in m - {k} ==> a in m && a != k && (m - {k})[a] == m[a]
  {
    var rest := m - {k};
    assert forall a :: a in rest ==> a in m && rest[a] == m[a];
    assert forall a :: a in m && a != k ==> a in rest && rest[a] == m[a];
  }

  lemma {:induction false} BelowSize(n: nat, s: set<nat>)
    requires forall i :: i in s ==> i < n
    ensures |s| <= n
    ensures |s| == n <==> forall i: nat :: i < n ==> i in s
  {
    if n > 0 {
      var rest := s - {n - 1};
      BelowSize(n - 1, rest);
      if n - 1 in s {
        assert s == rest + {n - 1};
      } else {
        assert s == rest;
      }
    } else {
      assert s == {};
    }
  }
}
