/** Facts about sequences that hold nothing twice, shared by the queues and lists. */
module Sequences {
  predicate NoRepeats<T(==)>(s: seq<T>) { forall j, k :: 0 <= j < k < |s| ==> s[j] != s[k] }

  predicate Apart<T(==)>(s: seq<T>, t: seq<T>) { forall j, k :: 0 <= j < |s| && 0 <= k < |t| ==> s[j] != t[k] }

  /** `s` with every occurrence of `x` taken out. */
  function Without<T(==)>(s: seq<T>, x: T): seq<T> {
    if s == [] then [] else if s[0] == x then Without(s[1..], x) else [s[0]] + Without(s[1..], x)
  }

  lemma {:induction false} WithoutIn<T>(s: seq<T>, x: T)
    ensures forall y :: y in Without(s, x) <==> y in s && y != x
    ensures |Without(s, x)| <= |s|
  {
    if s != [] {
      WithoutIn(s[1..], x);
      assert s == [s[0]] + s[1..];
    }
  }

  lemma Parts<T>(s: seq<T>, t: seq<T>)
    ensures NoRepeats(s + t) <==> NoRepeats(s) && NoRepeats(t) && Apart(s, t)
  {
    var c := s + t;
    if NoRepeats(c) {
      forall j, k | 0 <= j < k < |s| ensures s[j] != s[k] { assert c[j] != c[k]; }
      forall j, k | 0 <= j < k < |t| ensures t[j] != t[k] { assert c[|s| + j] != c[|s| + k]; }
      forall j, k | 0 <= j < |s| && 0 <= k < |t| ensures s[j] != t[k] { assert c[j] != c[|s| + k]; }
    }
  }

  lemma OneApart<T>(x: T, t: seq<T>)
    ensures Apart([x], t) <==> x !in t
    ensures Apart(t, [x]) <==> x !in t
    ensures NoRepeats([x])
  {
    assert ([x])[0] == x;
  }

  lemma ApartParts<T>(s: seq<T>, t: seq<T>, u: seq<T>)
    ensures Apart(s, t + u) <==> Apart(s, t) && Apart(s, u)
  {
    var c := t + u;
    assert forall k :: 0 <= k < |t| ==> c[k] == t[k];
    assert forall k :: 0 <= k < |u| ==> c[|t| + k] == u[k];
    if Apart(s, t) && Apart(s, u) {
      forall j, k | 0 <= j < |s| && 0 <= k < |c| ensures s[j] != c[k] {
        if k < |t| { assert c[k] == t[k]; } else { assert c[k] == u[k - |t|]; }
      }
    }
  }

  lemma HeadAlone<T>(s: seq<T>)
    requires s != []
    ensures NoRepeats(s) <==> s[0] !in s[1..] && NoRepeats(s[1..])
    ensures forall y :: y in s <==> y == s[0] || y in s[1..]
  {
    assert s == [s[0]] + s[1..];
    Parts([s[0]], s[1..]);
    OneApart(s[0], s[1..]);
  }

  lemma LastOnce<T>(s: seq<T>)
    requires NoRepeats(s) && s != []
    ensures s[|s| - 1] !in s[..|s| - 1]
  {
    var s0 := s[..|s| - 1];
    assert s == s0 + [s[|s| - 1]];
    Parts(s0, [s[|s| - 1]]);
    OneApart(s[|s| - 1], s0);
  }

  lemma {:induction false} WithoutNoRepeats<T>(s: seq<T>, x: T)
    requires NoRepeats(s)
    ensures NoRepeats(Without(s, x))
  {
    if s != [] {
      HeadAlone(s);
      WithoutNoRepeats(s[1..], x);
      WithoutIn(s[1..], x);
      var r := Without(s[1..], x);
      HeadAlone([s[0]] + r);
      assert ([s[0]] + r)[1..] == r;
    }
  }

  lemma {:induction false} WithoutAbsent<T>(s: seq<T>, x: T)
    requires x !in s
    ensures Without(s, x) == s
  {
    if s != [] { WithoutAbsent(s[1..], x); }
  }

  lemma {:induction false} WithoutConcat<T>(s: seq<T>, t: seq<T>, x: T)
    ensures Without(s + t, x) == Without(s, x) + Without(t, x)
  {
    if s == [] {
      assert s + t == t;
    } else {
      assert (s + t)[1..] == s[1..] + t;
      WithoutConcat(s[1..], t, x);
    }
  }

  /** Taking a member out from between the others. */
  lemma {:induction false} WithoutBetween<T>(s: seq<T>, x: T, t: seq<T>)
    requires x !in s && x !in t
    ensures Without(s + [x] + t, x) == s + t
    decreases |s|
  {
    var c := s + [x] + t;
    if s == [] {
      assert c[1..] == t;
      WithoutAbsent(t, x);
    } else {
      WithoutBetween(s[1..], x, t);
      assert c[1..] == s[1..] + [x] + t;
      assert [s[0]] + (s[1..] + t) == s + t;
    }
  }

  lemma {:induction false} WithoutCounts<T>(s: seq<T>, x: T)
    ensures multiset(Without(s, x)) == multiset(s)[x := 0]
  {
    if s != [] {
      WithoutCounts(s[1..], x);
      HeadCounts(s);
      var r := Without(s[1..], x);
      assert multiset([s[0]] + r) == multiset{s[0]} + multiset(r);
    }
  }

  lemma HeadCounts<T>(s: seq<T>)
    requires s != []
    ensures multiset(s) == multiset{s[0]} + multiset(s[1..])
  {
    assert s == [s[0]] + s[1..];
  }

  /** A new member between two parts. */
  lemma InsertBetween<T>(s: seq<T>, x: T, t: seq<T>)
    requires NoRepeats(s + t) && x !in s + t
    ensures NoRepeats(s + [x] + t)
    ensures forall y :: y in s + [x] + t <==> y == x || y in s + t
  {
    assert forall y :: y in s + t <==> y in s || y in t;
    Parts(s, t);
    OneApart(x, s);
    OneApart(x, t);
    Parts([x], t);
    ApartParts(s, [x], t);
    Parts(s, [x] + t);
    assert s + [x] + t == s + ([x] + t);
  }

  // ---- Order ---------------------------------------------------------------------------------------

  /** `y` stands somewhere in front of `x`. */
  predicate Precedes<T(==)>(s: seq<T>, y: T, x: T) {
    s != [] && ((s[0] == y && x in s[1..]) || Precedes(s[1..], y, x))
  }

  lemma {:induction false} PairsAreMembers<T>(s: seq<T>)
    ensures forall y, x :: Precedes(s, y, x) ==> y in s && x in s
  {
    if s != [] {
      PairsAreMembers(s[1..]);
      assert s == [s[0]] + s[1..];
    }
  }

  lemma {:induction false} PrecedesAppend<T>(s: seq<T>, z: T, y: T)
    ensures forall x :: Precedes(s, y, x) ==> Precedes(s + [z], y, x)
    ensures y in s ==> Precedes(s + [z], y, z)
  {
    if s != [] {
      PrecedesAppend(s[1..], z, y);
      assert (s + [z])[1..] == s[1..] + [z];
    }
  }

  lemma {:induction false} PrecedesWithout<T>(s: seq<T>, z: T, y: T, x: T)
    requires Precedes(s, y, x) && z != y && z != x
    ensures Precedes(Without(s, z), y, x)
  {
    var r := Without(s[1..], z);
    WithoutIn(s[1..], z);
    if s[0] != z { assert ([s[0]] + r)[1..] == r; }
    if Precedes(s[1..], y, x) { PrecedesWithout(s[1..], z, y, x); }
  }

  /** Where nothing stands twice, what comes after something is not the first. */
  lemma NotFirst<T>(s: seq<T>, y: T, x: T)
    requires Precedes(s, y, x) && s[0] !in s[1..]
    ensures s[0] != x
  {
    PairsAreMembers(s[1..]);
  }
}
