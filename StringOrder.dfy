/** Python's ordering of `str` values and `sorted` over a list of them.
    Python compares strings code point by code point, and a proper prefix
    comes first. (Dafny's own `<` on sequences means "proper prefix", so the
    order is defined here.) */
module StringOrder {

  /** `a < b` on Python strings. */
  predicate Less(a: string, b: string)
    decreases |a|
  {
    if b == [] then false
    else if a == [] then true
    else if a[0] != b[0] then a[0] < b[0]
    else Less(a[1..], b[1..])
  }

  lemma {:induction false} LessIrreflexive(a: string)
    ensures !Less(a, a)
    decreases |a|
  {
    if a != [] {
      LessIrreflexive(a[1..]);
    }
  }

  lemma {:induction false} LessAsymmetric(a: string, b: string)
    requires Less(a, b)
    ensures !Less(b, a)
    decreases |a|
  {
    if a != [] && b != [] && a[0] == b[0] {
      LessAsymmetric(a[1..], b[1..]);
    }
  }

  lemma {:induction false} LessTransitive(a: string, b: string, c: string)
    requires Less(a, b) && Less(b, c)
    ensures Less(a, c)
    decreases |a|
  {
    if a != [] && a[0] == b[0] && b[0] == c[0] {
      LessTransitive(a[1..], b[1..], c[1..]);
    }
  }

  /** Any two different strings are ordered one way or the other. */
  lemma {:induction false} LessTotal(a: string, b: string)
    requires a != b
    ensures Less(a, b) || Less(b, a)
    decreases |a|
  {
    if a != [] && b != [] && a[0] == b[0] {
      assert a == [a[0]] + a[1..] && b == [b[0]] + b[1..];
      LessTotal(a[1..], b[1..]);
    }
  }

  /** Ascending without repeats. */
  predicate StrictlySorted(s: seq<string>) {
    forall i, j :: 0 <= i < j < |s| ==> Less(s[i], s[j])
  }

  /** Ascending, repeats allowed. */
  predicate Sorted(s: seq<string>) {
    forall i, j :: 0 <= i < j < |s| ==> !Less(s[j], s[i])
  }

  /** Puts `x` into a sorted list in front of the first element not below it. */
  function InsertSorted(x: string, s: seq<string>): (r: seq<string>)
    ensures multiset(r) == multiset(s) + multiset{x}
    decreases |s|
  {
    if s == [] || !Less(s[0], x) then [x] + s
    else
      assert s == [s[0]] + s[1..];
      [s[0]] + InsertSorted(x, s[1..])
  }

  /** A sorted list stays sorted with an element in front that none of its
      elements is below. */
  lemma ConsSorted(x: string, s: seq<string>)
    requires Sorted(s)
    requires forall k :: k in s ==> !Less(k, x)
    ensures Sorted([x] + s)
  {
    forall i, j | 0 <= i < j < |[x] + s| ensures !Less(([x] + s)[j], ([x] + s)[i]) {
      if i > 0 {
        assert ([x] + s)[i] == s[i - 1] && ([x] + s)[j] == s[j - 1];
      } else {
        assert ([x] + s)[j] in s;
      }
    }
  }

  lemma {:induction false} InsertSortedSorted(x: string, s: seq<string>)
    requires Sorted(s)
    ensures Sorted(InsertSorted(x, s))
    decreases |s|
  {
    if s == [] || !Less(s[0], x) {
      forall k | k in s ensures !Less(k, x) {
        var j :| 0 <= j < |s| && s[j] == k;
        if Less(k, x) {
          assert !Less(s[j], s[0]);
          if x != s[0] {
            LessTotal(x, s[0]);
            LessTransitive(k, x, s[0]);
          }
          assert false;
        }
      }
      ConsSorted(x, s);
    } else {
      var t := InsertSorted(x, s[1..]);
      assert Sorted(s[1..]) by {
        forall i, j | 0 <= i < j < |s[1..]| ensures !Less(s[1..][j], s[1..][i]) {
          assert s[1..][j] == s[j + 1] && s[1..][i] == s[i + 1];
        }
      }
      InsertSortedSorted(x, s[1..]);
      forall k | k in t ensures !Less(k, s[0]) {
        assert k in multiset(t);
        if k == x {
          LessAsymmetric(s[0], x);
        } else {
          assert k in multiset(s[1..]);
          var j :| 0 <= j < |s[1..]| && s[1..][j] == k;
          assert s[j + 1] == k;
        }
      }
      ConsSorted(s[0], t);
    }
  }

  /** `sorted(keys)` */
  function Sort(s: seq<string>): (r: seq<string>)
    ensures Sorted(r)
    ensures multiset(r) == multiset(s)
    decreases |s|
  {
    if s == [] then [] else
      assert s == [s[0]] + s[1..];
      InsertSortedSorted(s[0], Sort(s[1..]));
      InsertSorted(s[0], Sort(s[1..]))
  }

  predicate NoRepeats(s: seq<string>) {
    forall i, j :: 0 <= i < j < |s| ==> s[i] != s[j]
  }

  /** Sorting keys that are all different lists them in strictly ascending
      order, each exactly once. */
  lemma SortDistinct(s: seq<string>)
    requires NoRepeats(s)
    ensures StrictlySorted(Sort(s))
    ensures |Sort(s)| == |s|
    ensures forall k :: k in Sort(s) <==> k in s
  {
    var r := Sort(s);
    assert |r| == |multiset(r)| == |multiset(s)| == |s|;
    forall k ensures k in r <==> k in s {
      assert k in r <==> k in multiset(r);
      assert k in s <==> k in multiset(s);
    }
    MultisetNoRepeats(s);
    forall i, j | 0 <= i < j < |r| ensures Less(r[i], r[j]) {
      if r[i] == r[j] {
        TwoIndicesCount(r, i, j);
        assert false;
      }
      LessTotal(r[i], r[j]);
    }
  }

  lemma MultisetNoRepeats(s: seq<string>)
    requires NoRepeats(s)
    ensures forall k :: multiset(s)[k] <= 1
  {
    if s != [] {
      assert s == [s[0]] + s[1..];
      MultisetNoRepeats(s[1..]);
      assert s[0] !in s[1..];
    }
  }

  lemma TwoIndicesCount(s: seq<string>, i: int, j: int)
    requires 0 <= i < j < |s| && s[i] == s[j]
    ensures multiset(s)[s[i]] >= 2
  {
    assert s == s[..i] + [s[i]] + s[i + 1..j] + [s[j]] + s[j + 1..];
  }

  /** Two strictly ascending lists with the same elements are the same list:
      the sorted order of a set of keys does not depend on how the keys were
      listed. */
  lemma {:induction false} StrictlySortedUnique(a: seq<string>, b: seq<string>)
    requires StrictlySorted(a) && StrictlySorted(b)
    requires forall k :: k in a <==> k in b
    ensures a == b
    decreases |a|
  {
    if a != [] {
      assert a[0] in b;
    }
    if b != [] {
      assert b[0] in a;
    }
    if a != [] && b != [] {
      if a[0] != b[0] {
        LessAsymmetric(a[0], b[0]);
        assert false;
      }
      assert a == [a[0]] + a[1..] && b == [b[0]] + b[1..];
      forall k ensures k in a[1..] <==> k in b[1..] {
        if k in a[1..] {
          var i :| 0 <= i < |a[1..]| && a[1..][i] == k;
          assert Less(a[0], a[i + 1]);
          LessIrreflexive(a[0]);
          assert k in b;
        }
        if k in b[1..] {
          var i :| 0 <= i < |b[1..]| && b[1..][i] == k;
          assert Less(b[0], b[i + 1]);
          LessIrreflexive(b[0]);
          assert k in a;
        }
      }
      StrictlySortedUnique(a[1..], b[1..]);
    }
  }
}
