/** How many threads are in a given kind of place: the book-keeping of both concurrency models. */
module Counting {

  function One(b: bool): int { if b then 1 else 0 }

  function Count<T>(s: seq<T>, f: T -> bool): nat {
    if s == [] then 0 else (if f(s[0]) then 1 else 0) + Count(s[1..], f)
  }

  lemma {:induction false} CountUpdate<T>(s: seq<T>, t: nat, x: T, f: T -> bool)
    requires t < |s|
    ensures Count(s[t := x], f) == Count(s, f) - One(f(s[t])) + One(f(x))
  {
    if t > 0 {
      CountUpdate(s[1..], t - 1, x, f);
      assert s[t := x][1..] == s[1..][t - 1 := x];
    }
  }

  lemma {:induction false} CountOne<T>(s: seq<T>, t: nat, f: T -> bool)
    requires t < |s| && f(s[t])
    ensures Count(s, f) >= 1
  {
    if t > 0 {
      CountOne(s[1..], t - 1, f);
    }
  }

  lemma {:induction false} CountTwo<T>(s: seq<T>, t: nat, u: nat, f: T -> bool)
    requires t < u < |s| && f(s[t]) && f(s[u])
    ensures Count(s, f) >= 2
  {
    if t == 0 {
      CountOne(s[1..], u - 1, f);
    } else {
      CountTwo(s[1..], t - 1, u - 1, f);
    }
  }

  lemma {:induction false} CountBound<T>(s: seq<T>, f: T -> bool)
    ensures Count(s, f) <= |s|
  {
    if s != [] {
      CountBound(s[1..], f);
    }
  }

  lemma {:induction false} CountSome<T>(s: seq<T>, f: T -> bool) returns (t: nat)
    requires Count(s, f) >= 1
    ensures t < |s| && f(s[t])
  {
    if f(s[0]) {
      t := 0;
    } else {
      t := CountSome(s[1..], f);
      t := t + 1;
    }
  }

  lemma {:induction false} CountNone<T>(s: seq<T>, f: T -> bool)
    requires forall t :: 0 <= t < |s| ==> !f(s[t])
    ensures Count(s, f) == 0
  {
    if s != [] {
      CountNone(s[1..], f);
    }
  }
}
