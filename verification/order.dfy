/** Go's ordering of strings and the two `slices` operations the pipeline
    applies to token and signature lists: `slices.Sort` and `slices.Compact`. */
module Order {

  /** Go's `a < b` on strings: lexicographic, element by element, a proper
      prefix sorting first.  On code points this is the same order as Go's
      comparison of the UTF-8 bytes, because UTF-8 preserves code-point order.
      (Dafny's own `<` on sequences means "proper prefix", which is not this.) */
  predicate Less(a: string, b: string) {
    if a == [] then b != []
    else if b == [] then false
    else if a[0] != b[0] then a[0] < b[0]
    else Less(a[1..], b[1..])
  }

  predicate LessEq(a: string, b: string) {
    a == b || Less(a, b)
  }

  lemma {:induction false} LessIrreflexive(a: string)
    ensures !Less(a, a)
  {
    if a != [] {
      LessIrreflexive(a[1..]);
    }
  }

  lemma {:induction false} LessTransitive(a: string, b: string, c: string)
    requires Less(a, b) && Less(b, c)
    ensures Less(a, c)
  {
    if a != [] && a[0] == b[0] && b[0] == c[0] {
      LessTransitive(a[1..], b[1..], c[1..]);
    }
  }

  lemma {:induction false} LessTotal(a: string, b: string)
    ensures a == b || Less(a, b) || Less(b, a)
    ensures !(Less(a, b) && Less(b, a))
  {
    if a != [] && b != [] && a[0] == b[0] {
      LessTotal(a[1..], b[1..]);
      if a[1..] == b[1..] {
        assert a == [a[0]] + a[1..] && b == [b[0]] + b[1..];
      }
    }
  }

  lemma LessEqTransitive(a: string, b: string, c: string)
    requires LessEq(a, b) && LessEq(b, c)
    ensures LessEq(a, c)
  {
    if a != b && b != c {
      LessTransitive(a, b, c);
    }
  }

  /** `Less` is a strict total order, so sorting by it is well defined. */
  lemma StrictTotalOrder()
    ensures forall a :: !Less(a, a)
    ensures forall a, b :: Less(a, b) ==> !Less(b, a)
    ensures forall a, b :: a != b ==> Less(a, b) || Less(b, a)
    ensures forall a, b, c :: Less(a, b) && Less(b, c) ==> Less(a, c)
  {
    forall a { LessIrreflexive(a); }
    forall a, b { LessTotal(a, b); }
    forall a, b, c | Less(a, b) && Less(b, c) { LessTransitive(a, b, c); }
  }

  /** Non-decreasing, as `slices.Sort` leaves a list. */
  predicate Sorted(ts: seq<string>) {
    forall i, j :: 0 <= i < j < |ts| ==> LessEq(ts[i], ts[j])
  }

  /** Strictly increasing, hence free of duplicates. */
  predicate StrictlySorted(ts: seq<string>) {
    forall i, j :: 0 <= i < j < |ts| ==> Less(ts[i], ts[j])
  }

  lemma SortedCons(y: string, ys: seq<string>)
    requires Sorted(ys)
    requires forall k :: 0 <= k < |ys| ==> LessEq(y, ys[k])
    ensures Sorted([y] + ys)
  {
  }

  function Insert(x: string, ts: seq<string>): (r: seq<string>)
    requires Sorted(ts)
    ensures multiset(r) == multiset(ts) + multiset{x}
    ensures Sorted(r)
  {
    if ts == [] then [x]
    else if LessEq(x, ts[0]) then
      assert forall j :: 0 <= j < |ts| ==> LessEq(x, ts[j]) by {
        forall j | 0 <= j < |ts| { LessEqTransitive(x, ts[0], ts[j]); }
      }
      SortedCons(x, ts);
      [x] + ts
    else
      var rest := Insert(x, ts[1..]);
      assert ts == [ts[0]] + ts[1..];
      assert forall k :: 0 <= k < |rest| ==> LessEq(ts[0], rest[k]) by {
        LessTotal(x, ts[0]);
        forall k | 0 <= k < |rest|
          ensures LessEq(ts[0], rest[k])
        {
          assert rest[k] in multiset(ts[1..]) + multiset{x};
          if rest[k] != x {
            var m :| 0 <= m < |ts[1..]| && ts[1..][m] == rest[k];
            assert ts[m + 1] == rest[k];
          }
        }
      }
      SortedCons(ts[0], rest);
      [ts[0]] + rest
  }

  /** `slices.Sort` on strings.  Any correct sort yields this result, because
      sorted permutations of one list are equal (`SortedUnique`); insertion
      sort is simply the easiest one to reason about. */
  function Sort(ts: seq<string>): (r: seq<string>)
    ensures multiset(r) == multiset(ts)
    ensures Sorted(r)
  {
    if ts == [] then []
    else
      assert ts == [ts[0]] + ts[1..];
      Insert(ts[0], Sort(ts[1..]))
  }

  /** The least element of a sorted list is its head. */
  lemma SortedHead(a: seq<string>, x: string)
    requires Sorted(a) && x in a
    ensures LessEq(a[0], x)
  {
  }

  /** Two sorted lists holding the same elements with the same multiplicities
      are the same list. */
  lemma {:induction false} SortedUnique(a: seq<string>, b: seq<string>)
    requires Sorted(a) && Sorted(b)
    requires multiset(a) == multiset(b)
    ensures a == b
  {
    if a != [] {
      assert b != [] by { assert |a| == |multiset(a)| == |multiset(b)| == |b|; }
      assert a[0] in multiset(b) && b[0] in multiset(a);
      SortedHead(b, a[0]);
      SortedHead(a, b[0]);
      LessTotal(a[0], b[0]);
      SortedTail(a, b);
      SortedUnique(a[1..], b[1..]);
      assert a == [a[0]] + a[1..] && b == [b[0]] + b[1..];
    }
  }

  /** Removing equal heads keeps multisets equal and lists sorted. */
  lemma SortedTail(a: seq<string>, b: seq<string>)
    requires Sorted(a) && Sorted(b) && a != [] && b != [] && a[0] == b[0]
    requires multiset(a) == multiset(b)
    ensures Sorted(a[1..]) && Sorted(b[1..])
    ensures multiset(a[1..]) == multiset(b[1..])
  {
    SortedDrop(a);
    SortedDrop(b);
    assert a == [a[0]] + a[1..] && b == [b[0]] + b[1..];
    assert multiset(a[1..]) == multiset(a) - multiset{a[0]};
    assert multiset(b[1..]) == multiset(b) - multiset{b[0]};
  }

  lemma SortedDrop(a: seq<string>)
    requires Sorted(a) && a != []
    ensures Sorted(a[1..])
  {
  }

  /** Two strictly sorted lists holding the same elements are the same list. */
  lemma {:induction false} StrictlySortedUnique(a: seq<string>, b: seq<string>)
    requires StrictlySorted(a) && StrictlySorted(b)
    requires forall t :: t in a <==> t in b
    ensures a == b
  {
    StrictTotalOrder();
    assert b != [] ==> b[0] in a;
    assert a != [] ==> a[0] in b;
    if a != [] {
      assert b != [] by { assert a[0] in b; }
      assert a[0] in b && b[0] in a;
      assert LessEq(b[0], a[0]) && LessEq(a[0], b[0]);
      assert a[0] == b[0];
      forall t
        ensures t in a[1..] ==> t in b[1..]
        ensures t in b[1..] ==> t in a[1..]
      {
        if t in a[1..] {
          var k :| 0 <= k < |a[1..]| && a[1..][k] == t;
          assert Less(a[0], a[k + 1]);
          assert a[k + 1] == t && t in a && t in b;
          var m :| 0 <= m < |b| && b[m] == t;
          assert m != 0;
          assert b[1..][m - 1] == t;
        }
        if t in b[1..] {
          var k :| 0 <= k < |b[1..]| && b[1..][k] == t;
          assert Less(b[0], b[k + 1]);
          assert b[k + 1] == t && t in b && t in a;
          var m :| 0 <= m < |a| && a[m] == t;
          assert m != 0;
          assert a[1..][m - 1] == t;
        }
      }
      StrictlySortedUnique(a[1..], b[1..]);
    }
  }

  /** A sorted list is left unchanged by sorting. */
  lemma SortOfSorted(ts: seq<string>)
    requires Sorted(ts)
    ensures Sort(ts) == ts
  {
    SortedUnique(Sort(ts), ts);
  }

  /** `slices.Compact`: each run of equal neighbours collapses to one copy. */
  function Compact(ts: seq<string>): (r: seq<string>)
    ensures |r| <= |ts|
    ensures forall t :: t in r <==> t in ts
    ensures forall i :: 0 <= i < |r| - 1 ==> r[i] != r[i + 1]
    ensures ts != [] ==> r != [] && r[0] == ts[0]
    ensures Sorted(ts) ==> StrictlySorted(r)
  {
    if |ts| <= 1 then ts
    else if ts[0] == ts[1] then Compact(ts[1..])
    else
      var rest := Compact(ts[1..]);
      assert Sorted(ts) ==> Sorted(ts[1..]);
      assert Sorted(ts) ==> forall k :: 0 <= k < |rest| ==> Less(ts[0], rest[k]) by {
        if Sorted(ts) {
          StrictTotalOrder();
          forall k | 0 <= k < |rest|
            ensures Less(ts[0], rest[k])
          {
            assert rest[k] in ts[1..];
            var m :| 0 <= m < |ts[1..]| && ts[1..][m] == rest[k];
            assert LessEq(ts[0], ts[1]) && LessEq(ts[1], ts[m + 1]);
          }
        }
      }
      [ts[0]] + rest
  }

  /** A duplicate-free sorted list is left unchanged by `Compact`. */
  lemma CompactOfStrictlySorted(ts: seq<string>)
    requires StrictlySorted(ts)
    ensures Compact(ts) == ts
  {
    assert Sorted(ts);
    StrictlySortedUnique(Compact(ts), ts);
  }
}
