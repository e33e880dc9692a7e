/** Least-recently-used order as a list of pages, and what it says about pools of different sizes. */
module Recency {
  import opened Base

  /** The list without x. */
  function Without<T(==,!new)>(s: seq<T>, x: T): (r: seq<T>)
    ensures forall y :: y in r <==> y in s && y != x
    ensures |r| <= |s|
  {
    if s == [] then []
    else if s[0] == x then Without(s[1..], x)
    else [s[0]] + Without(s[1..], x)
  }

  lemma {:induction false} WithoutNoDup<T(!new)>(s: seq<T>, x: T)
    requires NoDup(s)
    ensures NoDup(Without(s, x))
  {
    if s != [] {
      WithoutNoDup(s[1..], x);
      assert s[0] !in s[1..];
    }
  }

  lemma {:induction false} WithoutAbsent<T(!new)>(s: seq<T>, x: T)
    requires x !in s
    ensures Without(s, x) == s
  {
    if s != [] {
      WithoutAbsent(s[1..], x);
    }
  }

  lemma {:induction false} WithoutLength<T(!new)>(s: seq<T>, x: T)
    requires NoDup(s)
    ensures |Without(s, x)| == |s| - if x in s then 1 else 0
  {
    if s != [] {
      WithoutLength(s[1..], x);
      assert s[0] !in s[1..];
    }
  }

  function Take<T>(s: seq<T>, n: nat): seq<T> {
    if n < |s| then s[..n] else s
  }

  // ---------------------------------------------------------------- two descriptions of the resident pages

  /** A pool of the given size after an access to p: p in front, the page at the end pushed out if there is no room. */
  function Touch<T(==,!new)>(size: nat, pool: seq<T>, p: T): seq<T> {
    Take([p] + Without(pool, p), size)
  }

  /** The pool after a run of accesses, step by step. */
  function PoolAfter<T(==,!new)>(size: nat, accesses: seq<T>): seq<T> {
    if accesses == [] then []
    else Touch(size, PoolAfter(size, accesses[..|accesses| - 1]), accesses[|accesses| - 1])
  }

  /** The distinct pages accessed, the most recent first. */
  function Recent<T(==,!new)>(accesses: seq<T>): (r: seq<T>)
    ensures forall p :: p in r <==> p in accesses
  {
    if accesses == [] then []
    else
      var n := |accesses| - 1;
      assert accesses == accesses[..n] + [accesses[n]];
      [accesses[n]] + Without(Recent(accesses[..n]), accesses[n])
  }

  lemma FrontNoDup<T(!new)>(x: T, s: seq<T>)
    requires NoDup(s) && x !in s
    ensures NoDup([x] + s)
  {
  }

  lemma {:induction false} RecentNoDup<T(!new)>(accesses: seq<T>)
    ensures NoDup(Recent(accesses))
  {
    if accesses != [] {
      var n := |accesses| - 1;
      RecentNoDup(accesses[..n]);
      WithoutNoDup(Recent(accesses[..n]), accesses[n]);
      FrontNoDup(accesses[n], Without(Recent(accesses[..n]), accesses[n]));
    }
  }

  /** Cutting a list off behind n and taking x out agree on the first m < n elements. */
  lemma {:induction false} TakeWithout<T(!new)>(s: seq<T>, n: nat, x: T, m: nat)
    requires NoDup(s) && m < n
    ensures Take(Without(Take(s, n), x), m) == Take(Without(s, x), m)
    decreases s
  {
    if s != [] && m > 0 {
      var t := s[1..];
      assert Take(s, n) == [s[0]] + Take(t, n - 1);
      assert s[0] !in t;
      if s[0] == x {
        WithoutAbsent(t, x);
        WithoutAbsent(Take(t, n - 1), x);
      } else {
        TakeWithout(t, n - 1, x, m - 1);
        TakeCons(s[0], Without(Take(t, n - 1), x), m);
        TakeCons(s[0], Without(t, x), m);
      }
    }
  }

  lemma TakeCons<T>(x: T, s: seq<T>, n: nat)
    requires n > 0
    ensures Take([x] + s, n) == [x] + Take(s, n - 1)
  {
  }

  /** The resident pages are exactly the most recently accessed distinct ones, as many as fit. */
  lemma {:induction false} PoolHoldsMostRecent<T(!new)>(size: nat, accesses: seq<T>)
    requires size > 0
    ensures PoolAfter(size, accesses) == Take(Recent(accesses), size)
  {
    if accesses != [] {
      var n := |accesses| - 1;
      var before, p := accesses[..n], accesses[n];
      PoolHoldsMostRecent(size, before);
      RecentNoDup(before);
      TakeWithout(Recent(before), size, p, size - 1);
      TakeCons(p, Without(PoolAfter(size, before), p), size);
      TakeCons(p, Without(Recent(before), p), size);
    }
  }

  /** Whatever is in the smaller pool is in the larger one. */
  lemma {:induction false} Inclusion<T(!new)>(small: nat, large: nat, accesses: seq<T>)
    requires 0 < small <= large
    ensures forall p :: p in PoolAfter(small, accesses) ==> p in PoolAfter(large, accesses)
  {
    PoolHoldsMostRecent(small, accesses);
    PoolHoldsMostRecent(large, accesses);
    assert Take(Recent(accesses), small) <= Take(Recent(accesses), large);
  }

  /** How many accesses find their page in the pool. */
  function Hits<T(==,!new)>(size: nat, accesses: seq<T>): nat {
    if accesses == [] then 0
    else
      var n := |accesses| - 1;
      Hits(size, accesses[..n]) + if accesses[n] in PoolAfter(size, accesses[..n]) then 1 else 0
  }

  /** A larger pool never has fewer hits. */
  lemma {:induction false} LargerPoolHitsMore<T(!new)>(small: nat, large: nat, accesses: seq<T>)
    requires 0 < small <= large
    ensures Hits(small, accesses) <= Hits(large, accesses)
  {
    if accesses != [] {
      var n := |accesses| - 1;
      LargerPoolHitsMore(small, large, accesses[..n]);
      Inclusion(small, large, accesses[..n]);
    }
  }
}
