/** The order `finish` sorts its arguments in: Rust's `Ord` on `String`, which compares
    the UTF-8 bytes lexicographically and therefore orders like a lexicographic
    comparison of code points, here of Dafny's `char`s. */
module ArgOrder {

  /** `a` sorts strictly before `b`: `a` is a proper prefix of `b`, or `a` is smaller at the first position where they differ. */
  predicate LexLess(a: string, b: string)
    decreases |a|
  {
    |b| > 0 && (|a| == 0 || a[0] < b[0] || (a[0] == b[0] && LexLess(a[1..], b[1..])))
  }

  lemma {:induction false} LexLessIrreflexive(a: string)
    ensures !LexLess(a, a)
    decreases |a|
  {
    if |a| > 0 {
      LexLessIrreflexive(a[1..]);
    }
  }

  lemma {:induction false} LexLessTransitive(a: string, b: string, c: string)
    requires LexLess(a, b) && LexLess(b, c)
    ensures LexLess(a, c)
    decreases |a|
  {
    if |a| > 0 && a[0] == b[0] && b[0] == c[0] {
      LexLessTransitive(a[1..], b[1..], c[1..]);
    }
  }

  lemma {:induction false} LexLessTotal(a: string, b: string)
    requires a != b
    ensures LexLess(a, b) || LexLess(b, a)
    decreases |a|
  {
    if |a| > 0 && |b| > 0 && a[0] == b[0] {
      assert a == [a[0]] + a[1..] && b == [b[0]] + b[1..];
      LexLessTotal(a[1..], b[1..]);
    }
  }

  /** Names strictly increase along `s`; in particular no name occurs twice. */
  ghost predicate StrictlySortedByName<V>(s: seq<(string, V)>) {
    forall i, j :: 0 <= i < j < |s| ==> LexLess(s[i].0, s[j].0)
  }

  predicate DistinctNames<V>(s: seq<(string, V)>) {
    forall i, j :: 0 <= i < j < |s| ==> s[i].0 != s[j].0
  }

  lemma ConcatDistinct<V>(a: seq<(string, V)>, b: seq<(string, V)>)
    requires DistinctNames(a) && DistinctNames(b)
    requires forall i, j :: 0 <= i < |a| && 0 <= j < |b| ==> a[i].0 != b[j].0
    ensures DistinctNames(a + b)
  {
    var ab := a + b;
    forall i, j | 0 <= i < j < |ab| ensures ab[i].0 != ab[j].0 {
      if j < |a| {
      } else if i >= |a| {
        assert ab[i] == b[i - |a|] && ab[j] == b[j - |a|];
      } else {
        assert ab[j] == b[j - |a|];
      }
    }
  }

  /** Names never decrease along `s`. */
  ghost predicate SortedByName<V>(s: seq<(string, V)>) {
    forall i, j :: 0 <= i < j < |s| ==> !LexLess(s[j].0, s[i].0)
  }

  /** Inserts `x` before the first entry whose name sorts after its own. */
  function InsertByName<V>(x: (string, V), s: seq<(string, V)>): (r: seq<(string, V)>)
    ensures multiset(r) == multiset(s) + multiset{x}
  {
    if s == [] then [x]
    else if LexLess(x.0, s[0].0) then [x] + s
    else
      assert s == [s[0]] + s[1..];
      [s[0]] + InsertByName(x, s[1..])
  }

  lemma {:induction false} InsertByNameSorted<V>(x: (string, V), s: seq<(string, V)>)
    requires SortedByName(s)
    ensures SortedByName(InsertByName(x, s))
  {
    if s == [] {
    } else if LexLess(x.0, s[0].0) {
      forall j | 0 <= j < |s| ensures !LexLess(s[j].0, x.0) {
        if LexLess(s[j].0, x.0) {
          LexLessTransitive(s[j].0, x.0, s[0].0);
          LexLessIrreflexive(s[0].0);
        }
      }
    } else {
      InsertByNameSorted(x, s[1..]);
      var rest := InsertByName(x, s[1..]);
      forall j | 0 <= j < |rest| ensures !LexLess(rest[j].0, s[0].0) {
        assert rest[j] in multiset(rest);
        if rest[j] != x {
          assert rest[j] in multiset(s[1..]);
          var k :| 0 <= k < |s[1..]| && s[1..][k] == rest[j];
          assert s[k + 1] == rest[j];
        }
      }
    }
  }

  /** Sorts entries into non-decreasing name order: an insertion sort standing for the
      library sort `finish` calls, which promises the same two things. */
  method SortByName<V>(xs: seq<(string, V)>) returns (ys: seq<(string, V)>)
    ensures SortedByName(ys)
    ensures multiset(ys) == multiset(xs)
  {
    ys := [];
    for i := 0 to |xs|
      invariant SortedByName(ys)
      invariant multiset(ys) == multiset(xs[..i])
    {
      InsertByNameSorted(xs[i], ys);
      ys := InsertByName(xs[i], ys);
      assert xs[..i + 1] == xs[..i] + [xs[i]];
    }
    assert xs[..|xs|] == xs;
  }

  /** With distinct names no entry occurs twice. */
  lemma {:induction false} DistinctNamesOccurOnce<V>(s: seq<(string, V)>, e: (string, V))
    requires DistinctNames(s)
    ensures multiset(s)[e] <= 1
    decreases |s|
  {
    if s != [] {
      assert s == [s[0]] + s[1..];
      assert multiset(s) == multiset{s[0]} + multiset(s[1..]);
      DistinctNamesOccurOnce(s[1..], e);
      if e == s[0] {
        assert e !in s[1..];
      }
    }
  }

  /** Reordering entries keeps their names distinct. */
  lemma PermutationKeepsDistinct<V>(a: seq<(string, V)>, b: seq<(string, V)>)
    requires DistinctNames(a)
    requires multiset(a) == multiset(b)
    ensures DistinctNames(b)
  {
    forall i, j | 0 <= i < j < |b| ensures b[i].0 != b[j].0 {
      assert b[i] in multiset(a) && b[j] in multiset(a);
      if b[i] == b[j] {
        assert b == b[..j] + b[j..];
        assert multiset(b) == multiset(b[..j]) + multiset(b[j..]);
        assert b[..j][i] == b[i] && b[j..][0] == b[j];
        assert multiset(b[..j])[b[i]] >= 1 && multiset(b[j..])[b[j]] >= 1;
        DistinctNamesOccurOnce(a, b[i]);
      } else {
        var m :| 0 <= m < |a| && a[m] == b[i];
        var n :| 0 <= n < |a| && a[n] == b[j];
      }
    }
  }

  /** Sorted and distinct means strictly sorted. */
  lemma SortedDistinctIsStrict<V>(s: seq<(string, V)>)
    requires SortedByName(s) && DistinctNames(s)
    ensures StrictlySortedByName(s)
  {
    forall i, j | 0 <= i < j < |s| ensures LexLess(s[i].0, s[j].0) {
      LexLessTotal(s[i].0, s[j].0);
    }
  }

  /** Two strictly sorted sequences with the same entries are equal: the order of the
      input (a hash map's iteration order in the source) does not show in the result. */
  lemma {:induction false} SortedUnique<V>(a: seq<(string, V)>, b: seq<(string, V)>)
    requires StrictlySortedByName(a) && StrictlySortedByName(b)
    requires multiset(a) == multiset(b)
    ensures a == b
    decreases |a|
  {
    if a != [] {
      assert a[0] in multiset(b);
      assert b != [];
      assert b[0] in multiset(a);
      if a[0] != b[0] {
        var i :| 0 <= i < |b| && b[i] == a[0];
        var j :| 0 <= j < |a| && a[j] == b[0];
        LexLessTransitive(a[0].0, b[0].0, a[0].0);
        LexLessIrreflexive(a[0].0);
        assert false;
      }
      assert a == [a[0]] + a[1..] && b == [b[0]] + b[1..];
      assert multiset(a) == multiset{a[0]} + multiset(a[1..]);
      assert multiset(b) == multiset{b[0]} + multiset(b[1..]);
      assert multiset(a[1..]) == multiset(a) - multiset{a[0]};
      assert multiset(b[1..]) == multiset(b) - multiset{b[0]};
      SortedUnique(a[1..], b[1..]);
    } else {
      assert |multiset(b)| == 0;
    }
  }
}
