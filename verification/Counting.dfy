/** Counting lists of distinct numbers. */
module Counting {
  import opened Base

  function Elements(s: seq<nat>): (r: set<nat>)
    ensures forall x :: x in r <==> x in s
  {
    if s == [] then {} else {s[0]} + Elements(s[1..])
  }

  lemma {:induction false} DistinctCount(s: seq<nat>)
    requires NoDup(s)
    ensures |Elements(s)| == |s|
  {
    if s != [] {
      DistinctCount(s[1..]);
      assert s[0] !in s[1..];
    }
  }

  function Below(n: nat): (r: set<nat>)
    ensures forall x: nat :: x in r <==> x < n
    ensures |r| == n
  {
    if n == 0 then {} else Below(n - 1) + {n - 1}
  }

  lemma SubsetCount(a: set<nat>, b: set<nat>)
    requires a <= b
    ensures |a| <= |b|
  {
    assert b == a + (b - a);
  }

  /** Distinct numbers below n are at most n. */
  lemma AtMost(s: seq<nat>, n: nat)
    requires NoDup(s) && forall x: nat :: x in s ==> x < n
    ensures |s| <= n
  {
    DistinctCount(s);
    SubsetCount(Elements(s), Below(n));
  }

  /** Two lists that share the numbers below n between them have n elements together. */
  lemma SplitCount(a: seq<nat>, b: seq<nat>, n: nat)
    requires NoDup(a) && NoDup(b)
    requires forall x: nat :: x in a || x in b <==> x < n
    requires forall x: nat :: x in a ==> x !in b
    ensures |a| + |b| == n
  {
    DistinctCount(a);
    DistinctCount(b);
    assert Elements(a) + Elements(b) == Below(n);
    assert Elements(a) !! Elements(b);
  }

  /** The numbers a one-to-one table gives to a set of keys. */
  function Images(keys: set<nat>, table: map<nat, nat>): (r: set<nat>)
    requires forall k :: k in keys ==> k in table
    ensures forall k :: k in keys ==> table[k] in r
    ensures forall x :: x in r ==> exists k :: k in keys && table[k] == x
  {
    set k | k in keys :: table[k]
  }

  lemma {:induction false} ImageCount(keys: set<nat>, table: map<nat, nat>)
    requires forall k :: k in keys ==> k in table
    requires forall a, b :: a in keys && b in keys && a != b ==> table[a] != table[b]
    ensures |Images(keys, table)| == |keys|
    decreases |keys|
  {
    if keys != {} {
      var k :| k in keys;
      ImageCount(keys - {k}, table);
      assert Images(keys, table) == Images(keys - {k}, table) + {table[k]};
    }
  }

  /** Three lists, sets and so on that share the numbers below n between them. */
  lemma ThreeCount(a: seq<nat>, b: seq<nat>, c: set<nat>, n: nat)
    requires NoDup(a) && NoDup(b)
    requires forall x: nat :: x in a || x in b || x in c <==> x < n
    requires forall x: nat :: (x in a ==> x !in b && x !in c) && (x in b ==> x !in c)
    ensures |a| + |b| + |c| == n
  {
    DistinctCount(a);
    DistinctCount(b);
    assert Elements(a) + Elements(b) + c == Below(n);
    assert Elements(a) !! Elements(b) && (Elements(a) + Elements(b)) !! c;
  }
}
