/** Python's order on strings, by code point with a proper prefix first, and
    the ascending sort of names that `groupby` applies to its keys. */
module Names {
  import opened Seqs

  /** `a < b` on Python strings. */
  predicate Below(a: string, b: string)
    decreases |a|
  {
    b != [] && (a == [] || a[0] < b[0] || (a[0] == b[0] && Below(a[1..], b[1..])))
  }

  lemma {:induction false} BelowIrreflexive(a: string)
    ensures !Below(a, a)
    decreases |a|
  {
    if a != [] {
      BelowIrreflexive(a[1..]);
    }
  }

  lemma {:induction false} BelowTransitive(a: string, b: string, c: string)
    requires Below(a, b) && Below(b, c)
    ensures Below(a, c)
    decreases |a|
  {
    if a != [] && a[0] == b[0] && b[0] == c[0] {
      BelowTransitive(a[1..], b[1..], c[1..]);
    }
  }

  lemma {:induction false} BelowTotal(a: string, b: string)
    ensures a == b || Below(a, b) || Below(b, a)
    decreases |a|
  {
    if a != [] && b != [] && a[0] == b[0] {
      BelowTotal(a[1..], b[1..]);
      if a[1..] == b[1..] {
        assert a == [a[0]] + a[1..] && b == [b[0]] + b[1..];
      }
    }
  }

  /** Non-decreasing in Python's string order. */
  predicate Ascending(s: seq<string>) {
    forall i, j :: 0 <= i < j < |s| ==> !Below(s[j], s[i])
  }

  /** Places `x` before the first name of `s` that is not below it. */
  function Insert(x: string, s: seq<string>): (r: seq<string>)
    ensures multiset(r) == multiset(s) + multiset{x}
  {
    if s == [] || !Below(s[0], x) then [x] + s
    else
      assert s == [s[0]] + s[1..];
      [s[0]] + Insert(x, s[1..])
  }

  lemma {:induction false} InsertAscending(x: string, s: seq<string>)
    requires Ascending(s)
    ensures Ascending(Insert(x, s))
  {
    if s == [] {
    } else if !Below(s[0], x) {
      forall k | 0 <= k < |s| ensures !Below(s[k], x) {
        if k > 0 && Below(s[k], x) {
          BelowTotal(s[0], s[k]);
          if Below(s[0], s[k]) {
            BelowTransitive(s[0], s[k], x);
          }
        }
      }
      var r := Insert(x, s);
      forall i, j | 0 <= i < j < |r| ensures !Below(r[j], r[i]) {
        if i > 0 {
          assert r[i] == s[i - 1] && r[j] == s[j - 1];
        } else {
          assert r[j] == s[j - 1];
        }
      }
    } else {
      var t := Insert(x, s[1..]);
      InsertAscending(x, s[1..]);
      forall j | 0 <= j < |t| ensures !Below(t[j], s[0]) {
        assert t[j] in multiset(t);
        if t[j] == x {
          if Below(x, s[0]) {
            BelowTransitive(x, s[0], x);
            BelowIrreflexive(x);
          }
        } else {
          assert t[j] in multiset(s[1..]);
          var k :| 0 <= k < |s[1..]| && s[1..][k] == t[j];
          assert s[k + 1] == t[j];
        }
      }
      assert Insert(x, s) == [s[0]] + t;
    }
  }

  /** The names of `s` in ascending order (`sort=True` of `groupby`). */
  function Sort(s: seq<string>): (r: seq<string>)
    ensures multiset(r) == multiset(s)
    ensures Ascending(r)
  {
    if s == [] then []
    else
      assert s == [s[0]] + s[1..];
      InsertAscending(s[0], Sort(s[1..]));
      Insert(s[0], Sort(s[1..]))
  }

  /** Sorting names that are already in order changes nothing. */
  lemma {:induction false} SortAscending(s: seq<string>)
    requires Ascending(s)
    ensures Sort(s) == s
  {
    if s != [] {
      assert Ascending(s[1..]) by {
        forall i, j | 0 <= i < j < |s| - 1 ensures !Below(s[1..][j], s[1..][i]) {
          assert s[1..][j] == s[j + 1] && s[1..][i] == s[i + 1];
        }
      }
      SortAscending(s[1..]);
      assert s == [s[0]] + s[1..];
    }
  }

  /** Ascending names without repetitions are strictly ascending. */
  lemma AscendingDistinctIsStrict(s: seq<string>)
    requires Ascending(s) && NoDuplicates(s)
    ensures forall i, j :: 0 <= i < j < |s| ==> Below(s[i], s[j])
  {
    forall i, j | 0 <= i < j < |s| ensures Below(s[i], s[j]) {
      BelowTotal(s[i], s[j]);
    }
  }

  /** Sorting keeps the names and their absence of repetitions. */
  lemma SortKeepsNames(s: seq<string>)
    ensures forall x :: x in Sort(s) <==> x in s
    ensures |Sort(s)| == |s|
    ensures NoDuplicates(s) ==> NoDuplicates(Sort(s))
  {
    var r := Sort(s);
    assert forall x :: x in r <==> x in multiset(r);
    assert |r| == |multiset(r)| == |multiset(s)| == |s|;
    if NoDuplicates(s) {
      NoDuplicatesMultiset(s);
      NoDuplicatesMultiset(r);
    }
  }
}
