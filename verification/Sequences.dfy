/** Small facts about sequences, proved once away from heavier contexts. */
module Sequences {

  lemma LastApart<T>(s: seq<T>)
    requires s != []
    ensures s == s[..|s| - 1] + [s[|s| - 1]]
  {
  }

  lemma PushInit<T>(s: seq<T>, x: T)
    ensures (s + [x])[..|s|] == s && (s + [x])[|s|] == x
  {
  }

  lemma PushTail<T>(s: seq<T>, t: seq<T>)
    requires s != []
    ensures (s + t)[0] == s[0] && (s + t)[1..] == s[1..] + t
  {
  }

  lemma AppendInit<T>(p: seq<T>, q: seq<T>)
    requires q != []
    ensures (p + q)[..|p + q| - 1] == p + q[..|q| - 1]
    ensures (p + q)[|p + q| - 1] == q[|q| - 1]
    ensures p + q == (p + q[..|q| - 1]) + [q[|q| - 1]]
  {
  }

  lemma TakeAll<T>(s: seq<T>)
    ensures s[..|s|] == s
  {
  }

  lemma SplitAt<T>(s: seq<T>, i: nat)
    requires i <= |s|
    ensures s[..i] + s[i..] == s
  {
  }

  lemma TakeNext<T>(s: seq<T>, i: nat)
    requires i < |s|
    ensures s[..i + 1] == s[..i] + [s[i]]
  {
  }

  lemma Associate<T>(a: seq<T>, b: seq<T>, c: seq<T>)
    ensures (a + b) + c == a + (b + c)
  {
  }

  lemma JoinFour<T>(a: seq<T>, b: seq<T>, c: seq<T>, d: seq<T>)
    ensures a + (b + c + d) == a + b + c + d
  {
  }

  lemma AppendNothing<T>(p: seq<T>, q: seq<T>)
    requires q == []
    ensures p + q == p
  {
  }

  lemma RemoveAt<T>(s: seq<T>, i: nat)
    requires i < |s|
    ensures multiset(s[..i] + s[i + 1..]) == multiset(s) - multiset{s[i]}
  {
    assert s == s[..i] + [s[i]] + s[i + 1..];
  }

  /** What `f` gives for each element, one after the other. */
  ghost function Gather<T, U>(s: seq<T>, f: T -> seq<U>): seq<U> {
    if s == [] then [] else Gather(s[..|s| - 1], f) + f(s[|s| - 1])
  }

  lemma {:induction false} GatherWithout<T, U>(s: seq<T>, i: nat, f: T -> seq<U>)
    requires i < |s|
    ensures multiset(Gather(s, f)) == multiset(Gather(s[..i] + s[i + 1..], f)) + multiset(f(s[i]))
  {
    var n := |s| - 1;
    if i == n {
      AppendNothing(s[..i], s[i + 1..]);
    } else {
      GatherWithout(s[..n], i, f);
      WithoutLater(s, i);
    }
  }

  lemma WithoutLater<T>(s: seq<T>, i: nat)
    requires i < |s| - 1
    ensures s[..i] + s[i + 1..] == (s[..|s| - 1][..i] + s[..|s| - 1][i + 1..]) + [s[|s| - 1]]
  {
  }

  /** What is gathered does not depend on the order of the elements. */
  lemma {:induction false} GatherAnyOrder<T, U>(a: seq<T>, b: seq<T>, f: T -> seq<U>)
    requires multiset(a) == multiset(b)
    ensures multiset(Gather(a, f)) == multiset(Gather(b, f))
  {
    assert |a| == |multiset(a)| == |multiset(b)| == |b|;
    if a != [] {
      var n := |a| - 1;
      assert a[n] in multiset(b);
      var i :| 0 <= i < |b| && b[i] == a[n];
      RemoveAt(a, n);
      RemoveAt(b, i);
      assert a[..n] + a[n + 1..] == a[..n];
      GatherWithout(b, i, f);
      GatherAnyOrder(a[..n], b[..i] + b[i + 1..], f);
    }
  }

  /** The elements chosen, in their order. */
  function Chosen<T>(s: seq<T>, choose: T -> bool): seq<T> {
    if s == [] then []
    else Chosen(s[..|s| - 1], choose) + if choose(s[|s| - 1]) then [s[|s| - 1]] else []
  }

  lemma {:induction false} ChosenAt<T>(s: seq<T>, i: nat, choose: T -> bool)
    requires i < |s| && choose(s[i])
    ensures var before, all := Chosen(s[..i], choose), Chosen(s, choose);
            |before| < |all| && all[|before|] == s[i] && before == all[..|before|]
  {
    var n := |s| - 1;
    if i < n {
      assert s[..n][..i] == s[..i] && s[..n][i] == s[i];
      ChosenAt(s[..n], i, choose);
    }
  }

  lemma {:induction false} WhereChosen<T>(s: seq<T>, choose: T -> bool, n: nat) returns (j: nat)
    requires n < |Chosen(s, choose)|
    ensures j < |s| && s[j] == Chosen(s, choose)[n]
    ensures Chosen(s[..j], choose) == Chosen(s, choose)[..n]
  {
    var m := |s| - 1;
    if n < |Chosen(s[..m], choose)| {
      j := WhereChosen(s[..m], choose, n);
      assert s[..m][..j] == s[..j];
    } else {
      j := m;
    }
  }

  /** The place in `b` of what was chosen at `i` of `a`. */
  lemma ChosenAlike<T>(a: seq<T>, b: seq<T>, i: nat, choose: T -> bool) returns (j: nat)
    requires i < |a| && choose(a[i]) && Chosen(a, choose) == Chosen(b, choose)
    ensures j < |b| && b[j] == a[i] && Chosen(a[..i], choose) == Chosen(b[..j], choose)
  {
    ChosenAt(a, i, choose);
    j := WhereChosen(b, choose, |Chosen(a[..i], choose)|);
  }

  // ---------------------------------------------------------------- counting

  /** The places below n that pass. */
  ghost function Places(n: nat, pass: int -> bool): set<int> {
    set i | 0 <= i < n && pass(i)
  }

  lemma PlacesNext(n: nat, pass: int -> bool)
    ensures |Places(n + 1, pass)| == |Places(n, pass)| + if pass(n) then 1 else 0
  {
    if pass(n) {
      assert Places(n + 1, pass) == Places(n, pass) + {n};
    } else {
      assert Places(n + 1, pass) == Places(n, pass);
    }
  }

  lemma PlacesAlike(n: nat, pass: int -> bool, other: int -> bool)
    requires forall i | 0 <= i < n :: pass(i) == other(i)
    ensures Places(n, pass) == Places(n, other)
  {
  }
}
