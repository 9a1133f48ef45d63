/** Facts about sequences used as Python lists: duplicate-freedom, element
    counts and the sets they denote. */
module Collections {

  datatype Option<T> = None | Some(value: T)

  predicate Distinct<T(==)>(s: seq<T>) {
    forall i, j :: 0 <= i < j < |s| ==> s[i] != s[j]
  }

  function SetOf<T>(s: seq<T>): set<T> {
    set x | x in s
  }

  /** How many times `x` occurs in `s` (Python's `list.count`). */
  function CountOf<T(==)>(s: seq<T>, x: T): (n: nat)
    ensures n == multiset(s)[x]
    ensures n <= |s|
  {
    if |s| == 0 then 0
    else
      assert s == s[..|s| - 1] + [s[|s| - 1]];
      CountOf(s[..|s| - 1], x) + (if s[|s| - 1] == x then 1 else 0)
  }

  /** The index of the first occurrence of `x` (Python's `list.index`). */
  function IndexOf<T(==)>(s: seq<T>, x: T): (i: nat)
    requires x in s
    ensures i < |s| && s[i] == x
    ensures forall j :: 0 <= j < i ==> s[j] != x
  {
    if s[0] == x then 0 else 1 + IndexOf(s[1..], x)
  }

  /** `list.remove(x)`: deletes the first occurrence of `x`. */
  function RemoveFirst<T(==)>(s: seq<T>, x: T): (r: seq<T>)
    ensures x in s ==> multiset(r) == multiset(s) - multiset{x}
    ensures x !in s ==> r == s
  {
    if |s| == 0 then []
    else
      assert s == [s[0]] + s[1..];
      if s[0] == x then s[1..] else [s[0]] + RemoveFirst(s[1..], x)
  }

  /** Appending an element that is not yet present and removing it again is the identity. */
  lemma {:induction false} RemoveFirstAppended<T>(s: seq<T>, x: T)
    requires x !in s
    ensures RemoveFirst(s + [x], x) == s
  {
    if |s| > 0 {
      assert (s + [x])[1..] == s[1..] + [x];
      RemoveFirstAppended(s[1..], x);
      assert [s[0]] + s[1..] == s;
    }
  }

  lemma SetOfCons<T>(s: seq<T>)
    requires |s| > 0
    ensures SetOf(s) == {s[0]} + SetOf(s[1..])
  {
    assert s == [s[0]] + s[1..];
  }

  lemma DistinctTail<T>(s: seq<T>)
    requires |s| > 0 && Distinct(s)
    ensures Distinct(s[1..]) && s[0] !in SetOf(s[1..])
  {
    assert Distinct(s[1..]) by {
      forall p, q | 0 <= p < q < |s| - 1 ensures s[1..][p] != s[1..][q] {
        assert s[p + 1] != s[q + 1];
      }
    }
  }

  lemma {:induction false} DistinctRemoveFirst<T>(s: seq<T>, x: T)
    requires Distinct(s)
    ensures Distinct(RemoveFirst(s, x))
    ensures SetOf(RemoveFirst(s, x)) == SetOf(s) - {x}
  {
    if |s| > 0 {
      DistinctTail(s);
      SetOfCons(s);
      if s[0] != x {
        DistinctRemoveFirst(s[1..], x);
        var r := RemoveFirst(s[1..], x);
        var rr := [s[0]] + r;
        assert RemoveFirst(s, x) == rr;
        assert s[0] !in SetOf(r);
        assert Distinct(rr) by {
          forall p, q | 0 <= p < q < |rr| ensures rr[p] != rr[q] {
            assert rr[q] == r[q - 1];
            assert r[q - 1] in SetOf(r);
            if p > 0 { assert rr[p] == r[p - 1]; }
          }
        }
        SetOfCons(rr);
        assert rr[1..] == r;
      }
    }
  }

  /** A duplicate-free sequence has as many elements as the set it denotes. */
  lemma {:induction false} DistinctCard<T>(s: seq<T>)
    requires Distinct(s)
    ensures |SetOf(s)| == |s|
  {
    if |s| > 0 {
      var t := s[..|s| - 1];
      DistinctCard(t);
      assert SetOf(s) == SetOf(t) + {s[|s| - 1]};
      assert s[|s| - 1] !in t;
    }
  }

  lemma {:induction false} SubsetCard<T>(a: set<T>, b: set<T>)
    requires a <= b
    ensures |a| <= |b|
    decreases b
  {
    if a != {} {
      var x :| x in a;
      SubsetCard(a - {x}, b - {x});
    }
  }

  /** A duplicate-free sequence holds each of its elements exactly once. */
  lemma {:induction false} DistinctMultiset<T>(s: seq<T>)
    requires Distinct(s)
    ensures multiset(s) == multiset(SetOf(s))
  {
    if |s| > 0 {
      var t, y := s[..|s| - 1], s[|s| - 1];
      assert s == t + [y];
      assert Distinct(t);
      DistinctMultiset(t);
      assert y !in SetOf(t);
      assert SetOf(s) == SetOf(t) + {y};
    }
  }

  /** Two duplicate-free sequences over the same elements are permutations of each other. */
  lemma DistinctSameSetPermutation<T>(a: seq<T>, b: seq<T>)
    requires Distinct(a) && Distinct(b)
    requires SetOf(a) == SetOf(b)
    ensures multiset(a) == multiset(b)
  {
    DistinctMultiset(a);
    DistinctMultiset(b);
  }

  /** A duplicate-free sequence whose elements all lie in a duplicate-free `b`
      of the same length is a permutation of `b`. */
  lemma DistinctFillsSet<T>(a: seq<T>, b: seq<T>)
    requires Distinct(a) && Distinct(b)
    requires SetOf(a) <= SetOf(b)
    requires |a| == |b|
    ensures SetOf(a) == SetOf(b)
    ensures multiset(a) == multiset(b)
  {
    DistinctCard(a);
    DistinctCard(b);
    if SetOf(a) != SetOf(b) {
      var x :| x in SetOf(b) && x !in SetOf(a);
      SubsetCard(SetOf(a), SetOf(b) - {x});
      assert false;
    }
    DistinctSameSetPermutation(a, b);
  }

  /** A duplicate-free sequence within a duplicate-free `b` is no longer than `b`. */
  lemma DistinctWithinLength<T>(a: seq<T>, b: seq<T>)
    requires Distinct(a) && Distinct(b)
    requires SetOf(a) <= SetOf(b)
    ensures |a| <= |b|
  {
    DistinctCard(a);
    DistinctCard(b);
    SubsetCard(SetOf(a), SetOf(b));
  }

  /** Appending a new element keeps a sequence duplicate-free. */
  lemma DistinctSnoc<T>(s: seq<T>, x: T)
    requires Distinct(s) && x !in s
    ensures Distinct(s + [x])
  {
    forall i, j | 0 <= i < j < |s| + 1 ensures (s + [x])[i] != (s + [x])[j] {
      if j == |s| { assert (s + [x])[i] == s[i]; }
    }
  }

  /** Positions of existing elements do not move when one is appended. */
  lemma {:induction false} IndexOfSnoc<T>(s: seq<T>, y: T, x: T)
    requires x in s
    ensures IndexOf(s + [y], x) == IndexOf(s, x)
  {
    if s[0] != x {
      assert (s + [y])[1..] == s[1..] + [y];
      IndexOfSnoc(s[1..], y, x);
    }
  }

  /** A new element appended to a sequence is found at its end. */
  lemma {:induction false} IndexOfLast<T>(s: seq<T>, y: T)
    requires y !in s
    ensures IndexOf(s + [y], y) == |s|
  {
    if |s| > 0 {
      assert (s + [y])[1..] == s[1..] + [y];
      IndexOfLast(s[1..], y);
    }
  }

  /** The parts of a duplicate-free concatenation are duplicate-free and disjoint. */
  lemma DistinctConcat<T>(a: seq<T>, b: seq<T>)
    requires Distinct(a + b)
    ensures Distinct(a) && Distinct(b)
    ensures forall x :: x in a ==> x !in b
  {
    assert forall i :: 0 <= i < |a| ==> (a + b)[i] == a[i];
    assert forall j :: 0 <= j < |b| ==> (a + b)[|a| + j] == b[j];
  }

  /** The elements of a prefix one longer are those of the prefix and the next element. */
  lemma PrefixMembers<T>(s: seq<T>, i: int)
    requires 0 <= i < |s|
    ensures forall x :: x in s[..i + 1] <==> x in s[..i] || x == s[i]
  {
    assert s[..i + 1] == s[..i] + [s[i]];
  }

  lemma CountOfAppend<T>(a: seq<T>, b: seq<T>, x: T)
    ensures CountOf(a + b, x) == CountOf(a, x) + CountOf(b, x)
  {
    assert multiset(a + b) == multiset(a) + multiset(b);
  }
  predicate SortedBy<T>(s: seq<T>, key: T -> int) {
    forall i, j :: 0 <= i < j < |s| ==> key(s[i]) <= key(s[j])
  }

  /** Puts `x` after every element whose key is at most its own, as a stable
      sort places a later element of equal key. */
  function InsertBy<T>(x: T, s: seq<T>, key: T -> int): (r: seq<T>)
    ensures multiset(r) == multiset(s) + multiset{x}
    ensures |r| == |s| + 1
  {
    if s == [] then [x]
    else if key(s[0]) <= key(x) then
      assert s == [s[0]] + s[1..];
      [s[0]] + InsertBy(x, s[1..], key)
    else [x] + s
  }

  /** A sorted sequence's tail is sorted and holds nothing below its head. */
  lemma SortedTail<T>(s: seq<T>, key: T -> int)
    requires |s| > 0 && SortedBy(s, key)
    ensures SortedBy(s[1..], key)
    ensures forall y :: y in s[1..] ==> key(s[0]) <= key(y)
  {
    var t := s[1..];
    forall i, j | 0 <= i < j < |t| ensures key(t[i]) <= key(t[j]) {
      assert t[i] == s[i + 1] && t[j] == s[j + 1];
    }
    forall y | y in t ensures key(s[0]) <= key(y) {
      var k :| 0 <= k < |t| && t[k] == y;
      assert t[k] == s[k + 1];
    }
  }

  /** Putting an element no greater than any of a sorted sequence in front keeps it sorted. */
  lemma ConsSorted<T>(a: T, u: seq<T>, key: T -> int)
    requires SortedBy(u, key)
    requires forall y :: y in u ==> key(a) <= key(y)
    ensures SortedBy([a] + u, key)
  {
    var r := [a] + u;
    forall i, j | 0 <= i < j < |r| ensures key(r[i]) <= key(r[j]) {
      assert r[j] == u[j - 1];
      if i > 0 { assert r[i] == u[i - 1]; }
    }
  }

  lemma {:induction false} InsertBySorted<T>(x: T, s: seq<T>, key: T -> int)
    requires SortedBy(s, key)
    ensures SortedBy(InsertBy(x, s, key), key)
  {
    if s == [] {
      assert InsertBy(x, s, key) == [x];
    } else {
      SortedTail(s, key);
      if key(s[0]) <= key(x) {
        var t := s[1..];
        InsertBySorted(x, t, key);
        var u := InsertBy(x, t, key);
        forall y | y in u ensures key(s[0]) <= key(y) {
          assert y in multiset(u);
        }
        ConsSorted(s[0], u, key);
      } else {
        assert s == [s[0]] + s[1..];
        ConsSorted(x, s, key);
      }
    }
  }

  lemma MultisetSnoc<T>(s: seq<T>)
    requires |s| > 0
    ensures multiset(s) == multiset(s[..|s| - 1]) + multiset{s[|s| - 1]}
  {
    assert s == s[..|s| - 1] + [s[|s| - 1]];
  }

  /** `sorted(xs, key=key)`: Python's sort is stable, so each element is
      inserted after the earlier ones of equal key. */
  function SortBy<T>(xs: seq<T>, key: T -> int): (r: seq<T>)
    ensures multiset(r) == multiset(xs)
    ensures SortedBy(r, key)
    decreases |xs|
  {
    if xs == [] then []
    else
      var pre := SortBy(xs[..|xs| - 1], key);
      InsertBySorted(xs[|xs| - 1], pre, key);
      MultisetSnoc(xs);
      InsertBy(xs[|xs| - 1], pre, key)
  }

  /** Every finite set can be listed without repetition (the order of `sorted`
      over a set of names, when the sort key is not modelled). */
  lemma {:induction false} SetListing<T>(s: set<T>)
    ensures exists xs :: Distinct(xs) && SetOf(xs) == s
    decreases s
  {
    if s == {} {
      assert Distinct<T>([]) && SetOf<T>([]) == s;
    } else {
      var x :| x in s;
      SetListing(s - {x});
      var xs :| Distinct(xs) && SetOf(xs) == s - {x};
      DistinctSnoc(xs, x);
      assert forall y :: y in xs + [x] <==> y in xs || y == x;
      assert SetOf(xs + [x]) == SetOf(xs) + {x};
    }
  }
}
