/** Sorting as the Go standard library promises it: whatever order the elements
    come in, the result is the one ascending arrangement of them. */
module Ordering {

  ghost function Members<T>(s: seq<T>): set<T> {
    set x | x in s
  }

  /** `lt` orders the elements of `dom` strictly and totally. */
  ghost predicate StrictTotalOn<T>(lt: (T, T) -> bool, dom: set<T>) {
    && (forall x | x in dom :: !lt(x, x))
    && (forall x, y | x in dom && y in dom && x != y :: lt(x, y) != lt(y, x))
    && (forall x, y, z | x in dom && y in dom && z in dom && lt(x, y) && lt(y, z) :: lt(x, z))
  }

  ghost predicate Ascending<T>(lt: (T, T) -> bool, s: seq<T>) {
    forall i, j | 0 <= i < j < |s| :: !lt(s[j], s[i])
  }

  ghost predicate Distinct<T>(s: seq<T>) {
    forall i, j | 0 <= i < j < |s| :: s[i] != s[j]
  }

  function Insert<T>(lt: (T, T) -> bool, x: T, s: seq<T>): (r: seq<T>)
    ensures multiset(r) == multiset(s) + multiset{x}
    ensures |r| == |s| + 1
  {
    if s == [] then [x]
    else if lt(x, s[0]) then [x] + s
    else
      assert s == [s[0]] + s[1..];
      [s[0]] + Insert(lt, x, s[1..])
  }

  function Sort<T>(lt: (T, T) -> bool, s: seq<T>): (r: seq<T>)
    ensures multiset(r) == multiset(s)
    ensures |r| == |s|
  {
    if s == [] then []
    else
      assert s == s[..|s| - 1] + [s[|s| - 1]];
      Insert(lt, s[|s| - 1], Sort(lt, s[..|s| - 1]))
  }

  lemma SameMembers<T>(a: seq<T>, b: seq<T>)
    requires multiset(a) == multiset(b)
    ensures |a| == |b|
    ensures Members(a) == Members(b)
  {
    assert |a| == |multiset(a)| == |multiset(b)| == |b|;
    forall x
      ensures x in a <==> x in b
    {
      assert x in a <==> x in multiset(a);
      assert x in b <==> x in multiset(b);
    }
  }

  lemma InsertMembers<T>(lt: (T, T) -> bool, x: T, s: seq<T>)
    ensures Members(Insert(lt, x, s)) == Members(s) + {x}
  {
    SameMembers(Insert(lt, x, s), s + [x]);
  }

  lemma {:induction false} InsertAscending<T>(lt: (T, T) -> bool, x: T, s: seq<T>, dom: set<T>)
    requires StrictTotalOn(lt, dom)
    requires Members(s) <= dom && x in dom
    requires Ascending(lt, s)
    ensures Ascending(lt, Insert(lt, x, s))
  {
    assert forall i | 0 <= i < |s| :: s[i] in Members(s);
    if s != [] && !lt(x, s[0]) {
      assert Members(s[1..]) <= Members(s);
      InsertAscending(lt, x, s[1..], dom);
      InsertMembers(lt, x, s[1..]);
      var t := Insert(lt, x, s[1..]);
      forall j | 0 <= j < |t|
        ensures !lt(t[j], s[0])
      {
        assert t[j] in Members(t);
        assert t[j] == x || t[j] in s[1..];
        assert s[0] in dom && x in dom;
      }
    }
  }

  lemma {:induction false} SortAscending<T>(lt: (T, T) -> bool, s: seq<T>, dom: set<T>)
    requires StrictTotalOn(lt, dom)
    requires Members(s) <= dom
    ensures Ascending(lt, Sort(lt, s))
  {
    if s != [] {
      var init, last := s[..|s| - 1], s[|s| - 1];
      assert Members(init) <= Members(s) && last in Members(s);
      SortAscending(lt, init, dom);
      SameMembers(init, Sort(lt, init));
      InsertAscending(lt, last, Sort(lt, init), dom);
    }
  }

  lemma HeadsAgree<T>(lt: (T, T) -> bool, a: seq<T>, b: seq<T>, dom: set<T>)
    requires StrictTotalOn(lt, dom)
    requires Members(a) == Members(b) <= dom
    requires Ascending(lt, a) && Ascending(lt, b)
    requires a != [] && b != []
    ensures a[0] == b[0]
  {
    assert a[0] in Members(a) && b[0] in Members(b);
    var i :| 0 <= i < |b| && b[i] == a[0];
    var j :| 0 <= j < |a| && a[j] == b[0];
    assert i > 0 ==> !lt(b[i], b[0]);
    assert j > 0 ==> !lt(a[j], a[0]);
  }

  lemma TailsAgree<T>(a: seq<T>, b: seq<T>)
    requires a != [] && b != [] && a[0] == b[0]
    requires multiset(a) == multiset(b)
    ensures multiset(a[1..]) == multiset(b[1..])
  {
    assert a == [a[0]] + a[1..] && b == [b[0]] + b[1..];
    assert multiset(a[1..]) == multiset(a) - multiset{a[0]};
    assert multiset(b[1..]) == multiset(b) - multiset{b[0]};
  }

  /** An ascending arrangement is determined by the elements alone. */
  lemma {:induction false} AscendingUnique<T>(lt: (T, T) -> bool, a: seq<T>, b: seq<T>, dom: set<T>)
    requires StrictTotalOn(lt, dom)
    requires Members(a) <= dom
    requires Ascending(lt, a) && Ascending(lt, b)
    requires multiset(a) == multiset(b)
    ensures a == b
  {
    SameMembers(a, b);
    if a != [] {
      HeadsAgree(lt, a, b, dom);
      TailsAgree(a, b);
      assert Members(a[1..]) <= Members(a);
      AscendingUnique(lt, a[1..], b[1..], dom);
      assert a == [a[0]] + a[1..] && b == [b[0]] + b[1..];
    }
  }

  /** Sorting forgets the order the elements came in. */
  lemma SortCanonical<T>(lt: (T, T) -> bool, a: seq<T>, b: seq<T>)
    requires StrictTotalOn(lt, Members(a))
    requires multiset(a) == multiset(b)
    ensures Sort(lt, a) == Sort(lt, b)
  {
    SameMembers(a, b);
    SameMembers(a, Sort(lt, a));
    SortAscending(lt, a, Members(a));
    SortAscending(lt, b, Members(a));
    AscendingUnique(lt, Sort(lt, a), Sort(lt, b), Members(a));
  }

  lemma {:induction false} DistinctIsSet<T>(s: seq<T>)
    requires Distinct(s)
    ensures multiset(s) == multiset(Members(s))
  {
    if s != [] {
      var n := |s| - 1;
      DistinctIsSet(s[..n]);
      assert s == s[..n] + [s[n]];
      assert s[n] !in s[..n];
      assert Members(s) == Members(s[..n]) + {s[n]};
    }
  }

  lemma TwiceCounts<T>(s: seq<T>, i: nat, j: nat)
    requires i < j < |s|
    ensures s[i] == s[j] ==> multiset(s)[s[i]] >= 2
  {
    assert s == s[..j] + s[j..];
    assert s[i] in s[..j] && s[j] in s[j..];
  }

  lemma SortedDistinct<T>(a: seq<T>, b: seq<T>)
    requires Distinct(a) && multiset(a) == multiset(b)
    ensures Distinct(b)
  {
    DistinctIsSet(a);
    forall i, j | 0 <= i < j < |b|
      ensures b[i] != b[j]
    {
      TwiceCounts(b, i, j);
    }
  }

  lemma DistinctCount<T>(s: seq<T>)
    requires Distinct(s)
    ensures |Members(s)| == |s|
  {
    DistinctIsSet(s);
    assert |s| == |multiset(s)| == |multiset(Members(s))| == |Members(s)|;
  }

  /** What lists a set lists each element once. */
  lemma ListingDistinct<T>(s: seq<T>, dom: set<T>)
    requires multiset(s) == multiset(dom)
    ensures Distinct(s)
  {
    forall i, j | 0 <= i < j < |s|
      ensures s[i] != s[j]
    {
      TwiceCounts(s, i, j);
    }
  }

  lemma SubsetCount<T>(a: set<T>, b: set<T>)
    requires a <= b
    ensures |a| <= |b|
  {
    assert b == a + (b - a);
  }

  /** Cutting a sequence without repetitions cuts its set of members. */
  lemma SplitMembers<T>(s: seq<T>, n: nat)
    requires Distinct(s) && n <= |s|
    ensures Members(s) == Members(s[..n]) + Members(s[n..])
    ensures Members(s[..n]) !! Members(s[n..])
    ensures |Members(s[n..])| == |s| - n
  {
    assert s == s[..n] + s[n..];
    DistinctCount(s[n..]);
    assert forall i, j | 0 <= i < n <= j < |s| :: s[i] != s[j];
  }

  // ---------------------------------------------------------------- sets in order

  /** Some listing of a set: what ranging over a Go map gives. */
  ghost function Listing<T>(s: set<T>): (r: seq<T>)
    ensures multiset(r) == multiset(s)
    ensures |r| == |s|
  {
    if s == {} then []
    else
      var x :| x in s;
      assert s == (s - {x}) + {x};
      Listing(s - {x}) + [x]
  }

  ghost function InOrder<T>(lt: (T, T) -> bool, s: set<T>): (r: seq<T>)
    ensures multiset(r) == multiset(s)
    ensures |r| == |s|
  {
    Sort(lt, Listing(s))
  }

  lemma ListingMembers<T>(r: seq<T>, s: set<T>)
    requires multiset(r) == multiset(s)
    ensures Members(r) == s && |r| == |s|
  {
    assert |r| == |multiset(r)| == |multiset(s)|;
    forall x
      ensures x in r <==> x in s
    {
      assert x in r <==> x in multiset(r);
      assert x in s <==> x in multiset(s);
    }
  }

  /** Ranges over a set in whatever order comes. */
  method Collect<T(==)>(s: set<T>) returns (r: seq<T>)
    ensures multiset(r) == multiset(s)
    ensures Members(r) == s && |r| == |s|
  {
    r := [];
    var left := s;
    while left != {}
      invariant left <= s && multiset(r) == multiset(s - left)
      decreases |left|
    {
      var x :| x in left;
      assert s - (left - {x}) == (s - left) + {x};
      left := left - {x};
      r := r + [x];
    }
    assert s - left == s;
    ListingMembers(r, s);
  }

  /** However a set was listed, sorting the listing gives the one ascending order. */
  lemma SortedListing<T>(lt: (T, T) -> bool, s: set<T>, listing: seq<T>)
    requires StrictTotalOn(lt, s)
    requires multiset(listing) == multiset(s)
    ensures Sort(lt, listing) == InOrder(lt, s)
    ensures Ascending(lt, InOrder(lt, s)) && Members(InOrder(lt, s)) == s
  {
    ListingMembers(Listing(s), s);
    SortCanonical(lt, Listing(s), listing);
    SortAscending(lt, Listing(s), s);
    ListingMembers(InOrder(lt, s), s);
  }

  /** Byte-wise comparison of strings, as Go's `<` on strings. */
  predicate StringLess(a: string, b: string) {
    if b == "" then false
    else if a == "" then true
    else if a[0] != b[0] then a[0] < b[0]
    else StringLess(a[1..], b[1..])
  }

  lemma {:induction false} StringLessTrichotomy(a: string, b: string)
    ensures !StringLess(a, a)
    ensures a != b ==> StringLess(a, b) != StringLess(b, a)
  {
    if a != "" {
      StringLessTrichotomy(a[1..], if b == "" then "" else b[1..]);
      if b != "" && a[0] == b[0] {
        assert a == [a[0]] + a[1..] && b == [b[0]] + b[1..];
      }
    }
  }

  lemma {:induction false} StringLessTransitive(a: string, b: string, c: string)
    requires StringLess(a, b) && StringLess(b, c)
    ensures StringLess(a, c)
  {
    if a != "" && a[0] == b[0] && b[0] == c[0] {
      StringLessTransitive(a[1..], b[1..], c[1..]);
    }
  }

  lemma StringLessTotal()
    ensures forall dom: set<string> :: StrictTotalOn(StringLess, dom)
  {
    forall a: string, b: string
      ensures !StringLess(a, a) && (a != b ==> StringLess(a, b) != StringLess(b, a))
    {
      StringLessTrichotomy(a, b);
    }
    forall a: string, b: string, c: string | StringLess(a, b) && StringLess(b, c)
      ensures StringLess(a, c)
    {
      StringLessTransitive(a, b, c);
    }
  }

  // ---------------------------------------------------------------- whole numbers in order

  predicate Earlier(a: int, b: int) { a < b }

  ghost predicate RisingKeys(ks: seq<int>) {
    forall i, j | 0 <= i < j < |ks| :: ks[i] < ks[j]
  }

  lemma AscendingRises(s: set<int>)
    ensures RisingKeys(InOrder(Earlier, s)) && Members(InOrder(Earlier, s)) == s
  {
    var ks := InOrder(Earlier, s);
    SortedListing(Earlier, s, Listing(s));
    ListingDistinct(ks, s);
    forall i, j | 0 <= i < j < |ks|
      ensures ks[i] < ks[j]
    {
      assert ks[i] != ks[j] && !Earlier(ks[j], ks[i]);
    }
  }
}
