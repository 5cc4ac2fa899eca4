/** Two string helpers of the database layer: parsing `:namespace/name` keywords and
    rendering the `VALUES` placeholder block of a multi-row insert. */
module DbStrings {
  import opened Wrappers

  datatype Keyword = Keyword(namespace: string, name: string)

  datatype DbError = NotYetImplemented(message: string)

  predicate IsSeparator(c: char) {
    c == ':' || c == '/'
  }

  predicate SeparatorFree(s: string) {
    forall i :: 0 <= i < |s| ==> !IsSeparator(s[i])
  }

  /** `str::split` on the separators: the maximal separator-free runs of `s`, empty ones
      included, so there is always one more piece than there are separators. */
  function Split(s: string): (pieces: seq<string>)
    ensures |pieces| >= 1
    ensures forall k :: 0 <= k < |pieces| ==> SeparatorFree(pieces[k])
    decreases |s|
  {
    if s == [] then [""]
    else
      var rest := Split(s[1..]);
      if IsSeparator(s[0]) then [""] + rest
      else [[s[0]] + rest[0]] + rest[1..]
  }

  /** The separators of `s`, in order. */
  function Separators(s: string): (seps: string)
    ensures forall k :: 0 <= k < |seps| ==> IsSeparator(seps[k])
  {
    if s == [] then []
    else if IsSeparator(s[0]) then [s[0]] + Separators(s[1..])
    else Separators(s[1..])
  }

  /** The pieces put back together with the given separators between them. */
  function Rejoin(pieces: seq<string>, seps: string): string
    requires |pieces| == |seps| + 1
    decreases |seps|
  {
    if seps == [] then pieces[0] else pieces[0] + [seps[0]] + Rejoin(pieces[1..], seps[1..])
  }

  /** Splitting loses nothing: the pieces and the separators give back the string. */
  lemma {:induction false} SplitRejoin(s: string)
    ensures |Split(s)| == |Separators(s)| + 1
    ensures Rejoin(Split(s), Separators(s)) == s
    decreases |s|
  {
    if s != [] {
      SplitRejoin(s[1..]);
      var rest := Split(s[1..]);
      var seps := Separators(s[1..]);
      if IsSeparator(s[0]) {
        assert Split(s)[1..] == rest;
        assert s == "" + [s[0]] + s[1..];
      } else {
        assert Split(s)[1..] == rest[1..];
        if seps == [] {
        } else {
          assert rest == [rest[0]] + rest[1..];
        }
      }
    }
  }

  lemma {:induction false} SplitOfSeparatorFreePrefix(a: string, r: string)
    requires SeparatorFree(a)
    ensures Split(a + r) == [a + Split(r)[0]] + Split(r)[1..]
    decreases |a|
  {
    if a != [] {
      SplitOfSeparatorFreePrefix(a[1..], r);
      var ar := a + r;
      assert ar[0] == a[0] && !IsSeparator(ar[0]);
      assert ar[1..] == a[1..] + r;
      var rest := Split(ar[1..]);
      assert Split(ar) == [[ar[0]] + rest[0]] + rest[1..];
      assert [a[0]] + (a[1..] + Split(r)[0]) == a + Split(r)[0];
    } else {
      assert a + r == r;
      assert Split(r) == [Split(r)[0]] + Split(r)[1..];
      assert a + Split(r)[0] == Split(r)[0];
    }
  }

  /** Splitting undoes joining separator-free pieces with separators. */
  lemma {:induction false} SplitOfRejoin(pieces: seq<string>, seps: string)
    requires |pieces| == |seps| + 1
    requires forall k :: 0 <= k < |pieces| ==> SeparatorFree(pieces[k])
    requires forall k :: 0 <= k < |seps| ==> IsSeparator(seps[k])
    ensures Split(Rejoin(pieces, seps)) == pieces
    decreases |seps|
  {
    if seps == [] {
      SplitOfSeparatorFreePrefix(pieces[0], "");
      assert pieces[0] + "" == pieces[0];
      assert Split("") == [""];
      assert pieces == [pieces[0]];
    } else {
      var tail := Rejoin(pieces[1..], seps[1..]);
      SplitOfRejoin(pieces[1..], seps[1..]);
      var r := [seps[0]] + tail;
      assert Rejoin(pieces, seps) == pieces[0] + r;
      SplitOfSeparatorFreePrefix(pieces[0], r);
      assert r[0] == seps[0] && IsSeparator(r[0]);
      assert r[1..] == tail;
      assert Split(r) == [""] + Split(tail);
      assert Split(r)[0] == "" && Split(r)[1..] == pieces[1..];
      assert pieces[0] + "" == pieces[0];
      assert pieces == [pieces[0]] + pieces[1..];
    }
  }

  /** Parses `:namespace/name`. Either separator may stand in either place; anything but
      exactly three pieces with an empty first one is an error naming the input. */
  function ToNamespacedKeyword(s: string): (r: Result<Keyword, DbError>)
    ensures r.Ok? ==>
      SeparatorFree(r.value.namespace) && SeparatorFree(r.value.name)
      && |s| == |r.value.namespace| + |r.value.name| + 2
      && IsSeparator(s[0]) && IsSeparator(s[|r.value.namespace| + 1])
      && s == [s[0]] + r.value.namespace + [s[|r.value.namespace| + 1]] + r.value.name
    ensures r.Err? ==> r.error == NotYetImplemented("InvalidKeyword: " + s)
  {
    var pieces := Split(s);
    if |pieces| == 3 && pieces[0] == "" then
      SplitRejoin(s);
      var seps := Separators(s);
      assert pieces[1..][1..] == [pieces[2]] && seps[1..][1..] == [];
      assert Rejoin(pieces[1..], seps[1..]) == pieces[1] + [seps[1]] + pieces[2];
      assert s == "" + [seps[0]] + (pieces[1] + [seps[1]] + pieces[2]);
      Ok(Keyword(pieces[1], pieces[2]))
    else
      Err(NotYetImplemented("InvalidKeyword: " + s))
  }

  /** Every `<sep>namespace<sep>name` with separator-free parts parses to those parts;
      with the `ensures` of ToNamespacedKeyword this says exactly which strings parse. */
  lemma KeywordRoundTrip(first: char, namespace: string, second: char, name: string)
    requires IsSeparator(first) && IsSeparator(second)
    requires SeparatorFree(namespace) && SeparatorFree(name)
    ensures ToNamespacedKeyword([first] + namespace + [second] + name) == Ok(Keyword(namespace, name))
  {
    var pieces := ["", namespace, name];
    var seps := [first, second];
    assert Rejoin(pieces, seps) == [first] + namespace + [second] + name by {
      assert Rejoin(pieces[1..], seps[1..]) == namespace + [second] + name;
    }
    SplitOfRejoin(pieces, seps);
  }

  /** Both separators are accepted in either place. */
  lemma KeywordExamples()
    ensures ToNamespacedKeyword(":ns/name") == Ok(Keyword("ns", "name"))
    ensures ToNamespacedKeyword("/ns:name") == Ok(Keyword("ns", "name"))
  {
    KeywordRoundTrip(':', "ns", '/', "name");
    assert ":ns/name" == [':'] + "ns" + ['/'] + "name";
    KeywordRoundTrip('/', "ns", ':', "name");
    assert "/ns:name" == ['/'] + "ns" + [':'] + "name";
  }

  /** Without the leading separator the first piece is not empty. */
  lemma KeywordWithoutLeadingSeparator()
    ensures ToNamespacedKeyword("ns/name").Err?
  {
    SplitOfSeparatorFreePrefix("ns", "/name");
    assert "ns/name" == "ns" + "/name";
    assert "/name"[0] == '/';
    assert Split("/name") == [""] + Split("name");
    assert Split("ns/name")[0] == "ns" + "";
    assert "ns" + "" != "";
  }

  /** A third separator makes four pieces. */
  lemma KeywordWithTooManyPieces()
    ensures ToNamespacedKeyword(":a/b/c").Err?
  {
    var pieces := ["", "a", "b", "c"];
    var seps := "://";
    assert Rejoin(pieces[3..], seps[3..]) == "c";
    assert Rejoin(pieces[2..], seps[2..]) == "b/c";
    assert Rejoin(pieces[1..], seps[1..]) == "a/b/c";
    assert Rejoin(pieces, seps) == ":a/b/c";
    SplitOfRejoin(pieces, seps);
    assert |Split(":a/b/c")| == 4;
  }

  /** `n` copies of `x`. */
  function Repeat(x: string, n: nat): (r: seq<string>)
    ensures |r| == n && forall k :: 0 <= k < n ==> r[k] == x
  {
    if n == 0 then [] else [x] + Repeat(x, n - 1)
  }

  /** The pieces with `sep` between consecutive ones (itertools' `join`). */
  function Join(pieces: seq<string>, sep: string): string
  {
    if |pieces| == 0 then ""
    else if |pieces| == 1 then pieces[0]
    else pieces[0] + sep + Join(pieces[1..], sep)
  }

  /** An SQL `VALUES` block of `tuples` tuples of `valuesPerTuple` placeholders each,
      like `(?, ?), (?, ?)`; the source asserts both counts are at least one. */
  function RepeatValues(valuesPerTuple: nat, tuples: nat): (r: string)
    requires valuesPerTuple >= 1 && tuples >= 1
  {
    var inner := "(" + Join(Repeat("?", valuesPerTuple), ", ") + ")";
    Join(Repeat(inner, tuples), ", ")
  }

  function Count(c: char, s: string): nat
  {
    if s == [] then 0 else (if s[0] == c then 1 else 0) + Count(c, s[1..])
  }

  lemma {:induction false} CountConcat(c: char, a: string, b: string)
    ensures Count(c, a + b) == Count(c, a) + Count(c, b)
    decreases |a|
  {
    if a != [] {
      assert (a + b)[1..] == a[1..] + b;
      CountConcat(c, a[1..], b);
    } else {
      assert a + b == b;
    }
  }

  /** Joining `n >= 1` copies of `x` counts the copies and the `n - 1` separators. */
  lemma {:induction false} JoinRepeatCount(c: char, x: string, sep: string, n: nat)
    requires n >= 1
    ensures Count(c, Join(Repeat(x, n), sep)) == n * Count(c, x) + (n - 1) * Count(c, sep)
    decreases n
  {
    if n > 1 {
      var rest := Join(Repeat(x, n - 1), sep);
      JoinRepeatCount(c, x, sep, n - 1);
      assert Repeat(x, n)[1..] == Repeat(x, n - 1);
      assert Join(Repeat(x, n), sep) == x + sep + rest;
      CountConcat(c, x + sep, rest);
      CountConcat(c, x, sep);
      assert n * Count(c, x) == (n - 1) * Count(c, x) + Count(c, x);
      assert (n - 1) * Count(c, sep) == (n - 2) * Count(c, sep) + Count(c, sep);
    }
  }

  lemma {:induction false} JoinRepeatLength(x: string, sep: string, n: nat)
    requires n >= 1
    ensures |Join(Repeat(x, n), sep)| == n * |x| + (n - 1) * |sep|
    decreases n
  {
    if n > 1 {
      JoinRepeatLength(x, sep, n - 1);
      assert Repeat(x, n)[1..] == Repeat(x, n - 1);
      assert n * |x| == (n - 1) * |x| + |x|;
      assert (n - 1) * |sep| == (n - 2) * |sep| + |sep|;
    }
  }

  /** The join of copies of a non-empty `x` starts as `x` starts and ends as `x` ends. */
  lemma {:induction false} JoinRepeatEnds(x: string, sep: string, n: nat)
    requires n >= 1 && |x| > 0
    ensures x <= Join(Repeat(x, n), sep)
    ensures |Join(Repeat(x, n), sep)| >= |x|
    ensures Join(Repeat(x, n), sep)[|Join(Repeat(x, n), sep)| - 1] == x[|x| - 1]
    decreases n
  {
    if n > 1 {
      var rest := Join(Repeat(x, n - 1), sep);
      JoinRepeatEnds(x, sep, n - 1);
      assert Repeat(x, n)[1..] == Repeat(x, n - 1);
      assert Join(Repeat(x, n), sep) == x + (sep + rest);
    }
  }

  /** One tuple `(?, ..., ?)` of `v` placeholders. */
  lemma TupleShape(v: nat)
    requires v >= 1
    ensures var inner := "(" + Join(Repeat("?", v), ", ") + ")";
      Count('?', inner) == v && Count('(', inner) == 1 && Count(')', inner) == 1
      && |inner| == 3 * v && inner[0] == '(' && inner[|inner| - 1] == ')'
  {
    var body := Join(Repeat("?", v), ", ");
    var inner := "(" + body + ")";
    forall c: char ensures Count(c, inner) == Count(c, "(") + Count(c, body) + Count(c, ")") {
      CountConcat(c, "(" + body, ")");
      CountConcat(c, "(", body);
    }
    JoinRepeatCount('?', "?", ", ", v);
    JoinRepeatCount('(', "?", ", ", v);
    JoinRepeatCount(')', "?", ", ", v);
    JoinRepeatLength("?", ", ", v);
    assert Count('?', ", ") == 0 && Count('(', ", ") == 0 && Count(')', ", ") == 0;
    assert Count('?', "?") == 1 && Count('(', "?") == 0 && Count(')', "?") == 0;
    assert Count('?', "(") == 0 && Count('(', "(") == 1 && Count(')', "(") == 0;
    assert Count('?', ")") == 0 && Count('(', ")") == 0 && Count(')', ")") == 1;
  }

  /** The block holds one `?` per value and one pair of parentheses per tuple. */
  lemma RepeatValuesCounts(valuesPerTuple: nat, tuples: nat)
    requires valuesPerTuple >= 1 && tuples >= 1
    ensures Count('?', RepeatValues(valuesPerTuple, tuples)) == valuesPerTuple * tuples
    ensures Count('(', RepeatValues(valuesPerTuple, tuples)) == tuples
    ensures Count(')', RepeatValues(valuesPerTuple, tuples)) == tuples
  {
    var v, t := valuesPerTuple, tuples;
    var inner := "(" + Join(Repeat("?", v), ", ") + ")";
    TupleShape(v);
    var nq, no, nc := Count('?', inner), Count('(', inner), Count(')', inner);
    assert Count('?', ", ") == 0 && Count('(', ", ") == 0 && Count(')', ", ") == 0;
    JoinRepeatCount('?', inner, ", ", t);
    JoinRepeatCount('(', inner, ", ", t);
    JoinRepeatCount(')', inner, ", ", t);
  }

  /** The block is `3 * v * t + 2 * (t - 1)` characters long and opens and closes with a parenthesis. */
  lemma RepeatValuesLength(valuesPerTuple: nat, tuples: nat)
    requires valuesPerTuple >= 1 && tuples >= 1
    ensures |RepeatValues(valuesPerTuple, tuples)| == 3 * valuesPerTuple * tuples + 2 * (tuples - 1)
    ensures RepeatValues(valuesPerTuple, tuples)[0] == '('
    ensures RepeatValues(valuesPerTuple, tuples)[|RepeatValues(valuesPerTuple, tuples)| - 1] == ')'
  {
    var v, t := valuesPerTuple, tuples;
    var inner := "(" + Join(Repeat("?", v), ", ") + ")";
    var r := Join(Repeat(inner, t), ", ");
    assert RepeatValues(v, t) == r;
    TupleShape(v);
    var len := |inner|;
    assert len == 3 * v;
    JoinRepeatLength(inner, ", ", t);
    assert |r| == t * len + (t - 1) * 2;
    assert t * len == 3 * v * t;
    JoinRepeatEnds(inner, ", ", t);
    assert r[0] == inner[0];
  }

  /** The examples in the function's documentation. */
  lemma RepeatValuesExamples()
    ensures RepeatValues(1, 3) == "(?), (?), (?)"
    ensures RepeatValues(3, 1) == "(?, ?, ?)"
    ensures RepeatValues(2, 2) == "(?, ?), (?, ?)"
  {
    assert Repeat("?", 1) == ["?"];
    assert Join(["?"], ", ") == "?";
    assert "(" + Join(Repeat("?", 1), ", ") + ")" == "(?)";
    assert RepeatValues(1, 3) == Join(Repeat("(?)", 3), ", ");
    assert Repeat("?", 2) == ["?", "?"];
    assert Join(["?", "?"], ", ") == "?, ?" by {
      assert ["?", "?"][1..] == ["?"];
    }
    assert Repeat("?", 3) == ["?", "?", "?"];
    assert Join(["?", "?", "?"], ", ") == "?, ?, ?" by {
      assert ["?", "?", "?"][1..] == ["?", "?"];
      assert ["?", "?"][1..] == ["?"];
    }
    assert Repeat("(?)", 3) == ["(?)", "(?)", "(?)"];
    assert Join(["(?)", "(?)", "(?)"], ", ") == "(?), (?), (?)" by {
      assert ["(?)", "(?)", "(?)"][1..] == ["(?)", "(?)"];
      assert ["(?)", "(?)"][1..] == ["(?)"];
    }
    assert Repeat("(?, ?, ?)", 1) == ["(?, ?, ?)"];
    assert "(" + Join(Repeat("?", 2), ", ") + ")" == "(?, ?)";
    assert RepeatValues(2, 2) == Join(Repeat("(?, ?)", 2), ", ");
    assert Repeat("(?, ?)", 2) == ["(?, ?)", "(?, ?)"];
    assert Join(["(?, ?)", "(?, ?)"], ", ") == "(?, ?), (?, ?)" by {
      assert ["(?, ?)", "(?, ?)"][1..] == ["(?, ?)"];
    }
  }
}
