/**
 * The order Go's `sort.Strings` puts dictionary keys in: bytewise
 * lexicographic, a proper prefix first. The encoder sorts the keys it
 * collected from a map, so the order in which the map was iterated is lost.
 */
module Keys {
  import opened Common

  /** `a < b` on Go strings. */
  predicate Less(a: Bytes, b: Bytes) {
    if |a| == 0 then |b| > 0
    else if |b| == 0 then false
    else a[0] < b[0] || (a[0] == b[0] && Less(a[1..], b[1..]))
  }

  predicate LessEq(a: Bytes, b: Bytes) {
    a == b || Less(a, b)
  }

  lemma {:induction false} LessIrreflexive(a: Bytes)
    ensures !Less(a, a)
  {
    if |a| > 0 {
      LessIrreflexive(a[1..]);
    }
  }

  lemma {:induction false} LessAsymmetric(a: Bytes, b: Bytes)
    ensures !(Less(a, b) && Less(b, a))
  {
    if |a| > 0 && |b| > 0 && a[0] == b[0] {
      LessAsymmetric(a[1..], b[1..]);
    }
  }

  lemma {:induction false} LessTransitive(a: Bytes, b: Bytes, c: Bytes)
    requires Less(a, b) && Less(b, c)
    ensures Less(a, c)
  {
    if |a| > 0 && a[0] == b[0] && b[0] == c[0] {
      LessTransitive(a[1..], b[1..], c[1..]);
    }
  }

  lemma LessTransitiveEq(a: Bytes, b: Bytes, c: Bytes)
    requires LessEq(a, b) && Less(b, c)
    ensures Less(a, c)
  {
    if a != b {
      LessTransitive(a, b, c);
    }
  }

  lemma {:induction false} LessTotal(a: Bytes, b: Bytes)
    requires a != b
    ensures Less(a, b) || Less(b, a)
  {
    if |a| > 0 && |b| > 0 && a[0] == b[0] {
      assert a == [a[0]] + a[1..] && b == [b[0]] + b[1..];
      LessTotal(a[1..], b[1..]);
    }
  }

  /** No element occurs twice. */
  predicate Distinct(s: seq<GoString>) {
    forall i, j :: 0 <= i < j < |s| ==> s[i] != s[j]
  }

  /** A sequence has no repeats exactly when its multiset counts every element at most once. */
  lemma {:induction false} DistinctCounts(s: seq<GoString>)
    ensures Distinct(s) <==> forall x :: multiset(s)[x] <= 1
  {
    if s != [] {
      var t := s[1..];
      assert s == [s[0]] + t;
      DistinctCounts(t);
      assert multiset(s) == multiset{s[0]} + multiset(t);
      if Distinct(s) {
        forall k | 0 <= k < |t| ensures t[k] != s[0] {
          assert t[k] == s[k + 1];
        }
        assert Distinct(t) by {
          forall i, j | 0 <= i < j < |t| ensures t[i] != t[j] {
            assert t[i] == s[i + 1] && t[j] == s[j + 1];
          }
        }
      } else {
        var i, j :| 0 <= i < j < |s| && s[i] == s[j];
        if i == 0 {
          assert s[j] in t;
          assert multiset(s)[s[0]] >= 2;
        } else {
          assert t[i - 1] == t[j - 1];
          assert !Distinct(t);
          var x :| multiset(t)[x] > 1;
          assert multiset(s)[x] > 1;
        }
      }
    }
  }

  /** Every element is at most every later one. */
  predicate Sorted(s: seq<GoString>) {
    forall i, j :: 0 <= i < j < |s| ==> LessEq(s[i], s[j])
  }

  /** Every element is below every later one (sorted, no repeats). */
  predicate StrictlySorted(s: seq<GoString>) {
    forall i, j :: 0 <= i < j < |s| ==> Less(s[i], s[j])
  }

  /** Place `x` in front of the first element of `s` that is not below it. */
  function Insert(x: GoString, s: seq<GoString>): seq<GoString> {
    if s == [] then [x]
    else if LessEq(x, s[0]) then [x] + s
    else [s[0]] + Insert(x, s[1..])
  }

  /** Inserting into a sorted sequence keeps it sorted and adds exactly `x`. */
  lemma {:induction false} InsertSpec(x: GoString, s: seq<GoString>)
    requires Sorted(s)
    ensures Sorted(Insert(x, s))
    ensures multiset(Insert(x, s)) == multiset(s) + multiset{x}
  {
    if s == [] {
    } else if LessEq(x, s[0]) {
      BelowAll(x, s);
      ConsSorted(x, s);
    } else {
      SortedTail(s);
      var t := Insert(x, s[1..]);
      InsertSpec(x, s[1..]);
      LessTotal(x, s[0]);
      AboveAll(s, x, t);
      ConsSorted(s[0], t);
      assert s == [s[0]] + s[1..];
    }
  }

  lemma SortedTail(s: seq<GoString>)
    requires Sorted(s) && s != []
    ensures Sorted(s[1..])
  {
    forall i, j | 0 <= i < j < |s| - 1 ensures LessEq(s[1..][i], s[1..][j]) {
      assert s[1..][i] == s[i + 1] && s[1..][j] == s[j + 1];
    }
  }

  /** An element at most the head of a sorted sequence is at most all of it. */
  lemma BelowAll(x: GoString, s: seq<GoString>)
    requires Sorted(s) && s != [] && LessEq(x, s[0])
    ensures forall j :: 0 <= j < |s| ==> LessEq(x, s[j])
  {
    forall j | 0 < j < |s| ensures LessEq(x, s[j]) {
      assert LessEq(s[0], s[j]);
      if x != s[0] && s[0] != s[j] { LessTransitive(x, s[0], s[j]); }
    }
  }

  /**
   * The head of a sorted `s` is at most every element of a `t` holding the
   * rest of `s` and an element above the head.
   */
  lemma AboveAll(s: seq<GoString>, x: GoString, t: seq<GoString>)
    requires Sorted(s) && s != [] && Less(s[0], x)
    requires multiset(t) == multiset(s[1..]) + multiset{x}
    ensures forall j :: 0 <= j < |t| ==> LessEq(s[0], t[j])
  {
    forall j | 0 <= j < |t| ensures LessEq(s[0], t[j]) {
      assert t[j] in multiset(t);
      if t[j] != x {
        assert t[j] in multiset(s[1..]);
        var k :| 0 <= k < |s| - 1 && s[1..][k] == t[j];
        assert s[k + 1] == t[j];
      }
    }
  }

  /** Putting an element at most all of a sorted sequence in front keeps it sorted. */
  lemma ConsSorted(h: GoString, t: seq<GoString>)
    requires Sorted(t) && forall j :: 0 <= j < |t| ==> LessEq(h, t[j])
    ensures Sorted([h] + t)
  {
    var r := [h] + t;
    forall i, j | 0 <= i < j < |r| ensures LessEq(r[i], r[j]) {
      assert r[j] == t[j - 1];
      if i > 0 {
        assert r[i] == t[i - 1];
      }
    }
  }

  /** Insertion sort: what `sort.Strings` computes, up to the order of equal elements. */
  function Sort(s: seq<GoString>): seq<GoString> {
    if s == [] then [] else Insert(s[0], Sort(s[1..]))
  }

  /** `Sort` returns a sorted permutation of its input. */
  lemma {:induction false} SortSpec(s: seq<GoString>)
    ensures Sorted(Sort(s))
    ensures multiset(Sort(s)) == multiset(s)
  {
    if s != [] {
      SortSpec(s[1..]);
      InsertSpec(s[0], Sort(s[1..]));
      assert s == [s[0]] + s[1..];
    }
  }

  /** A sorted sequence without repeats is strictly sorted. */
  lemma SortedDistinct(s: seq<GoString>)
    requires Sorted(s)
    requires Distinct(s)
    ensures StrictlySorted(s)
  {
  }

  /** Two strictly sorted sequences with the same elements are the same sequence. */
  lemma {:induction false} StrictlySortedUnique(a: seq<GoString>, b: seq<GoString>)
    requires StrictlySorted(a) && StrictlySorted(b)
    requires forall x :: x in a <==> x in b
    ensures a == b
  {
    if a != [] {
      assert a[0] in b;
    }
    if b != [] {
      assert b[0] in a;
    }
    if a != [] && b != [] {
      assert a[0] in a && b[0] in b;
      var j :| 0 <= j < |b| && b[j] == a[0];
      var i :| 0 <= i < |a| && a[i] == b[0];
      if j > 0 && i > 0 {
        LessAsymmetric(a[0], a[i]);
      } else if j > 0 {
        LessIrreflexive(b[0]);
      } else if i > 0 {
        LessIrreflexive(a[0]);
      }
      assert a[0] == b[0];
      forall x ensures x in a[1..] <==> x in b[1..] {
        LessIrreflexive(x);
        if x in a[1..] {
          var k :| 0 <= k < |a| - 1 && a[1..][k] == x;
          assert a[k + 1] == x && Less(a[0], a[k + 1]);
          assert x in a;
          var m :| 0 <= m < |b| && b[m] == x;
          assert m != 0;
          assert b[1..][m - 1] == x;
        }
        if x in b[1..] {
          var k :| 0 <= k < |b| - 1 && b[1..][k] == x;
          assert b[k + 1] == x && Less(b[0], b[k + 1]);
          assert x in b;
          var m :| 0 <= m < |a| && a[m] == x;
          assert m != 0;
          assert a[1..][m - 1] == x;
        }
      }
      StrictlySortedUnique(a[1..], b[1..]);
      assert a == [a[0]] + a[1..] && b == [b[0]] + b[1..];
    }
  }

  /** Some enumeration of a finite set without repeats (the order a map happens to be iterated in). */
  ghost function Enumeration(s: set<GoString>): seq<GoString> {
    if s == {} then []
    else
      var x :| x in s;
      [x] + Enumeration(s - {x})
  }

  /** A non-empty set is enumerated by one of its elements, then the rest. */
  lemma EnumerationStep(s: set<GoString>) returns (x: GoString)
    requires s != {}
    ensures x in s && Enumeration(s) == [x] + Enumeration(s - {x})
  {
    x :| x in s && Enumeration(s) == [x] + Enumeration(s - {x});
  }

  lemma {:induction false} EnumerationMembers(s: set<GoString>)
    ensures |Enumeration(s)| == |s|
    ensures forall x :: x in Enumeration(s) <==> x in s
  {
    if s != {} {
      var x := EnumerationStep(s);
      EnumerationMembers(s - {x});
    }
  }

  lemma {:induction false} EnumerationDistinct(s: set<GoString>)
    ensures Distinct(Enumeration(s))
  {
    if s != {} {
      var x := EnumerationStep(s);
      EnumerationDistinct(s - {x});
      EnumerationMembers(s - {x});
      var r := Enumeration(s);
      var t := Enumeration(s - {x});
      forall i, j | 0 <= i < j < |r| ensures r[i] != r[j] {
        assert r[j] == t[j - 1];
        if i > 0 {
          assert r[i] == t[i - 1];
        }
      }
    }
  }

  /** `Enumeration` lists every element of the set exactly once. */
  lemma EnumerationSpec(s: set<GoString>)
    ensures |Enumeration(s)| == |s|
    ensures forall x :: x in Enumeration(s) <==> x in s
    ensures Distinct(Enumeration(s))
  {
    EnumerationMembers(s);
    EnumerationDistinct(s);
  }

  /** The keys of a set in ascending order: the only order the encoder ever emits. */
  ghost function Ascending(s: set<GoString>): seq<GoString> {
    Sort(Enumeration(s))
  }

  /** `Ascending` lists every element of the set once, in strictly increasing order. */
  lemma AscendingSpec(s: set<GoString>)
    ensures StrictlySorted(Ascending(s))
    ensures forall x :: x in Ascending(s) <==> x in s
    ensures |Ascending(s)| == |s|
  {
    var e := Enumeration(s);
    var r := Sort(e);
    EnumerationSpec(s);
    SortSpec(e);
    assert forall x :: x in r <==> x in e by {
      forall x ensures x in r <==> x in e {
        assert x in r <==> x in multiset(r);
        assert x in e <==> x in multiset(e);
      }
    }
    assert |r| == |multiset(r)| == |multiset(e)| == |e|;
    DistinctCounts(e);
    DistinctCounts(r);
    SortedDistinct(r);
  }

  /** A single key is its own ascending enumeration. */
  lemma AscendingSingleton(k: GoString)
    ensures Ascending({k}) == [k]
  {
    AscendingSpec({k});
    assert Ascending({k})[0] in {k};
  }

  /** The members of `Ascending(s)` are those of `s`. */
  lemma AscendingMembers(s: set<GoString>)
    ensures forall x :: x in Ascending(s) <==> x in s
  {
    AscendingSpec(s);
  }

  /** Sorting any repeat-free enumeration of a set yields `Ascending` of that set. */
  lemma SortCanonical(ks: seq<GoString>, s: set<GoString>)
    requires Distinct(ks)
    requires forall x :: x in ks <==> x in s
    ensures Sort(ks) == Ascending(s)
  {
    var r := Sort(ks);
    SortSpec(ks);
    assert forall x :: x in r <==> x in ks by {
      forall x ensures x in r <==> x in ks {
        assert x in r <==> x in multiset(r);
        assert x in ks <==> x in multiset(ks);
      }
    }
    DistinctCounts(ks);
    DistinctCounts(r);
    SortedDistinct(r);
    AscendingSpec(s);
    StrictlySortedUnique(r, Ascending(s));
  }
}
