/** The SQLite query builder: it accumulates SQL text and the arguments to bind to it,
    naming arguments `<prefix>0`, `<prefix>1`, ... and sharing one argument between
    repeated string and UUID values. */
module SqlBuilder {
  import opened Wrappers
  import opened Decimal
  import Identifiers
  import ArgOrder

  newtype byte = x: int | 0 <= x < 256

  /** Rust's `i64`. */
  newtype i64 = x: int | -0x8000_0000_0000_0000 <= x < 0x8000_0000_0000_0000

  /** The rusqlite values an argument can carry; a real number is kept as opaque bits. */
  datatype SqlValue = Null | Integer(value: i64) | Real(bits: nat) | Text(text: string) | Blob(bytes: seq<byte>)

  type Arg = (string, SqlValue)

  /** The typed values the builder can render (the floating-point `Double` is not modelled). */
  datatype TypedValue =
    | Ref(entid: i64)
    | Boolean(b: bool)
    | Long(v: i64)
    | Instant(micros: i64)
    | Uuid(uuid: seq<byte>)
    | String(s: string)
    | Keyword(keyword: string)  // the keyword's printed form, e.g. `:ns/name`

  datatype SqlError = InvalidParameterName(name: string) | BindParamCouldBeGenerated(name: string)

  /** The SQL text and the arguments to bind, as `finish` hands them over. */
  datatype SqlQuery = SqlQuery(sql: string, args: seq<Arg>)

  const DefaultPrefix: string := "$v"

  /** The name of the argument numbered `counter`. */
  function ArgName(prefix: string, counter: nat): string
  {
    prefix + NatToString(counter)
  }

  /** Generated names are pairwise distinct. */
  lemma ArgNameInjective(prefix: string, i: nat, j: nat)
    requires ArgName(prefix, i) == ArgName(prefix, j)
    ensures i == j
  {
    assert ArgName(prefix, i)[|prefix|..] == NatToString(i);
    assert ArgName(prefix, j)[|prefix|..] == NatToString(j);
    NatToStringInjective(i, j);
  }

  /** `name` is one of the first `bound` generated names. */
  ghost predicate GeneratedBelow(prefix: string, name: string, bound: nat) {
    exists k: nat :: k < bound && name == ArgName(prefix, k)
  }

  /** The text a typed value is written as directly, or None when it goes in as an argument. */
  function Literal(v: TypedValue): Option<string>
  {
    match v
    case Ref(e) => Some(IntToString(e as int))
    case Boolean(b) => Some(if b then "1" else "0")
    case Long(x) => Some(IntToString(x as int))
    case Instant(m) => Some(IntToString(m as int))
    case Uuid(_) => None
    case String(_) => None
    case Keyword(_) => None
  }

  /** Integers are written in a form that reads back as the same number, booleans as one
      digit; exactly UUIDs, strings and keywords go in as arguments. */
  lemma LiteralReadsBack(v: TypedValue)
    ensures Literal(v).None? <==> v.Uuid? || v.String? || v.Keyword?
    ensures v.Ref? ==> ParseInt(Literal(v).value) == Some(v.entid as int)
    ensures v.Long? ==> ParseInt(Literal(v).value) == Some(v.v as int)
    ensures v.Instant? ==> ParseInt(Literal(v).value) == Some(v.micros as int)
    ensures v.Boolean? ==> ParseInt(Literal(v).value) == Some(if v.b then 1 else 0)
  {
    match v
    case Ref(e) => ParseIntToString(e as int);
    case Long(x) => ParseIntToString(x as int);
    case Instant(m) => ParseIntToString(m as int);
    case Boolean(b) =>
      assert Literal(v).value == IntToString(if b then 1 else 0);
      ParseIntToString(if b then 1 else 0);
    case Uuid(_) =>
    case String(_) =>
    case Keyword(_) =>
  }

  predicate IsParamChar(c: char) {
    'a' <= c <= 'z' || 'A' <= c <= 'Z' || '0' <= c <= '9' || c == '_'
  }

  /** Bytes in the UTF-8 encoding of `c`. */
  function Utf8Width(c: char): nat {
    if c as int < 0x80 then 1 else if c as int < 0x800 then 2 else if c as int < 0x1_0000 then 3 else 4
  }

  /** `str::len`: the UTF-8 byte length. */
  function Utf8Len(s: string): (n: nat)
    ensures n >= |s|
  {
    if s == [] then 0 else Utf8Width(s[0]) + Utf8Len(s[1..])
  }

  /** What follows the prefix in `name` as `chars().skip(prefix.len())` sees it: the
      prefix's byte length is used as a count of characters. */
  function AfterPrefix(prefix: string, name: string): (r: string)
    ensures |r| <= |name| && r == name[|name| - |r|..]
  {
    var n := Utf8Len(prefix);
    if n <= |name| then name[n..] else []
  }

  /** The validation `push_bind_param` runs, as written: it compares the name itself,
      without the `$` of its placeholder, against the prefix. */
  function BindParamCheck(prefix: string, name: string): (r: Result<(), SqlError>)
    ensures r.Err? && r.error.InvalidParameterName? <==> exists i :: 0 <= i < |name| && !IsParamChar(name[i])
    ensures r.Err? && r.error.BindParamCouldBeGenerated? ==>
      prefix <= name && AllDigits(AfterPrefix(prefix, name))
    ensures (forall i :: 0 <= i < |name| ==> IsParamChar(name[i])) ==>
      (r.Ok? <==> !(prefix <= name && AllDigits(AfterPrefix(prefix, name))))
    ensures r.Err? ==> r.error.name == name
  {
    if !(forall i :: 0 <= i < |name| ==> IsParamChar(name[i])) then Err(InvalidParameterName(name))
    else if prefix <= name && AllDigits(AfterPrefix(prefix, name)) then Err(BindParamCouldBeGenerated(name))
    else Ok(())
  }

  /** With the default prefix the second check can never fire: the prefix begins with
      `$`, which the first check already rejects. */
  lemma DefaultPrefixNeverCouldBeGenerated(name: string)
    ensures BindParamCheck(DefaultPrefix, name) != Err(BindParamCouldBeGenerated(name))
  {
    if DefaultPrefix <= name {
      assert !IsParamChar(name[0]);
    }
  }

  /** The name `v0` passes the check as written, yet its placeholder `$v0` is the name the
      default builder gives its first generated argument. */
  lemma DefaultPrefixCollision()
    ensures BindParamCheck(DefaultPrefix, "v0") == Ok(())
    ensures "$" + "v0" == ArgName(DefaultPrefix, 0)
  {
    assert NatToString(0) == "0";
  }

  /** The check that the documentation describes: refuse a name whose placeholder
      `$<name>` could be a generated argument name, that is, a placeholder made of the
      prefix followed only by digits. This refuses every generated name
      (IntendedCheckRefusesGenerated) and a few more, such as `$v00` or `$v` itself. */
  function IntendedBindParamCheck(prefix: string, name: string): (r: Result<(), SqlError>)
    ensures r.Err? && r.error.InvalidParameterName? <==> exists i :: 0 <= i < |name| && !IsParamChar(name[i])
    ensures (forall i :: 0 <= i < |name| ==> IsParamChar(name[i])) ==>
      (r.Ok? <==> !(prefix <= "$" + name && AllDigits(("$" + name)[|prefix|..])))
    ensures r.Err? ==> r.error.name == name
  {
    var placeholder := "$" + name;
    if !(forall i :: 0 <= i < |name| ==> IsParamChar(name[i])) then Err(InvalidParameterName(name))
    else if prefix <= placeholder && AllDigits(placeholder[|prefix|..]) then Err(BindParamCouldBeGenerated(name))
    else Ok(())
  }

  /** A name the intended check accepts never has a generated argument's name as its placeholder. */
  lemma IntendedCheckPreventsCollision(prefix: string, name: string, k: nat)
    requires IntendedBindParamCheck(prefix, name).Ok?
    ensures "$" + name != ArgName(prefix, k)
  {
  }

  /** The corrected check refuses the name of the collision above. */
  lemma IntendedCheckRefusesCollision()
    ensures IntendedBindParamCheck(DefaultPrefix, "v0") == Err(BindParamCouldBeGenerated("v0"))
  {
    assert ("$" + "v0")[|DefaultPrefix|..] == "0";
  }

  /** A valid name whose placeholder is a generated argument name is refused as one that
      could be generated. */
  lemma IntendedCheckRefusesGenerated(prefix: string, name: string, k: nat)
    requires forall i :: 0 <= i < |name| ==> IsParamChar(name[i])
    requires "$" + name == ArgName(prefix, k)
    ensures IntendedBindParamCheck(prefix, name) == Err(BindParamCouldBeGenerated(name))
  {
    assert ("$" + name)[|prefix|..] == NatToString(k);
  }

  /** The correction also works the other way: under a prefix without `$` the check as
      written refuses `p1`, whose placeholder `$p1` cannot be a generated name, and the
      corrected check accepts it. */
  lemma CorrectionAcceptsUnrelatedName()
    ensures BindParamCheck("p", "p1") == Err(BindParamCouldBeGenerated("p1"))
    ensures IntendedBindParamCheck("p", "p1") == Ok(())
    ensures forall k: nat :: "$" + "p1" != ArgName("p", k)
  {
    assert AfterPrefix("p", "p1") == "1";
    forall k: nat ensures "$" + "p1" != ArgName("p", k) {
      assert ArgName("p", k)[0] == 'p';
    }
  }

  /** Every name in use is one of the first `counter` generated names. */
  ghost predicate AllGenerated(prefix: string, counter: nat, args: seq<Arg>,
                               strs: map<string, string>, bytes: map<seq<byte>, string>)
  {
    (forall i :: 0 <= i < |args| ==> GeneratedBelow(prefix, args[i].0, counter))
    && (forall s :: s in strs ==> GeneratedBelow(prefix, strs[s], counter))
    && (forall b :: b in bytes ==> GeneratedBelow(prefix, bytes[b], counter))
  }

  /** No name is used twice, within or across the three places arguments are kept. */
  predicate NamesDistinct(args: seq<Arg>, strs: map<string, string>, bytes: map<seq<byte>, string>) {
    ArgOrder.DistinctNames(args)
    && (forall s, t :: s in strs && t in strs && s != t ==> strs[s] != strs[t])
    && (forall b, c :: b in bytes && c in bytes && b != c ==> bytes[b] != bytes[c])
    && (forall i, s :: 0 <= i < |args| && s in strs ==> args[i].0 != strs[s])
    && (forall i, b :: 0 <= i < |args| && b in bytes ==> args[i].0 != bytes[b])
    && (forall s, b :: s in strs && b in bytes ==> strs[s] != bytes[b])
  }

  /** The builder's invariant: one argument per generated name, no name used twice. */
  ghost predicate ValidState(prefix: string, counter: nat, args: seq<Arg>,
                             strs: map<string, string>, bytes: map<seq<byte>, string>)
  {
    |args| + |strs| + |bytes| == counter
    && AllGenerated(prefix, counter, args, strs, bytes)
    && NamesDistinct(args, strs, bytes)
  }

  /** The next generated name is not in use. */
  lemma NextNameUnused(prefix: string, counter: nat, args: seq<Arg>,
                       strs: map<string, string>, bytes: map<seq<byte>, string>)
    requires AllGenerated(prefix, counter, args, strs, bytes)
    ensures Unused(ArgName(prefix, counter), args, strs, bytes)
  {
    var next := ArgName(prefix, counter);
    forall i | 0 <= i < |args| ensures args[i].0 != next {
      assert GeneratedBelow(prefix, args[i].0, counter);
      var k: nat :| k < counter && args[i].0 == ArgName(prefix, k);
      if args[i].0 == next {
        ArgNameInjective(prefix, k, counter);
      }
    }
    forall s | s in strs ensures strs[s] != next {
      var k: nat :| k < counter && strs[s] == ArgName(prefix, k);
      if strs[s] == next {
        ArgNameInjective(prefix, k, counter);
      }
    }
    forall b | b in bytes ensures bytes[b] != next {
      var k: nat :| k < counter && bytes[b] == ArgName(prefix, k);
      if bytes[b] == next {
        ArgNameInjective(prefix, k, counter);
      }
    }
  }

  lemma GeneratedBelowGrows(prefix: string, name: string, counter: nat)
    requires GeneratedBelow(prefix, name, counter) || name == ArgName(prefix, counter)
    ensures GeneratedBelow(prefix, name, counter + 1)
  {
    if name == ArgName(prefix, counter) {
    } else {
      var k: nat :| k < counter && name == ArgName(prefix, k);
    }
  }

  lemma AllGeneratedGrows(prefix: string, counter: nat, args: seq<Arg>,
                          strs: map<string, string>, bytes: map<seq<byte>, string>)
    requires AllGenerated(prefix, counter, args, strs, bytes)
    ensures AllGenerated(prefix, counter + 1, args, strs, bytes)
  {
    forall i | 0 <= i < |args| ensures GeneratedBelow(prefix, args[i].0, counter + 1) {
      GeneratedBelowGrows(prefix, args[i].0, counter);
    }
    forall s | s in strs ensures GeneratedBelow(prefix, strs[s], counter + 1) {
      GeneratedBelowGrows(prefix, strs[s], counter);
    }
    forall b | b in bytes ensures GeneratedBelow(prefix, bytes[b], counter + 1) {
      GeneratedBelowGrows(prefix, bytes[b], counter);
    }
  }

  /** `name` is not used by any argument so far. */
  predicate Unused(name: string, args: seq<Arg>, strs: map<string, string>, bytes: map<seq<byte>, string>) {
    (forall i :: 0 <= i < |args| ==> args[i].0 != name)
    && (forall s :: s in strs ==> strs[s] != name)
    && (forall b :: b in bytes ==> bytes[b] != name)
  }

  lemma DistinctAfterStatic(args: seq<Arg>, strs: map<string, string>, bytes: map<seq<byte>, string>,
                            name: string, val: SqlValue)
    requires NamesDistinct(args, strs, bytes) && Unused(name, args, strs, bytes)
    ensures NamesDistinct(args + [(name, val)], strs, bytes)
  {
    var args' := args + [(name, val)];
    assert forall i :: 0 <= i < |args| ==> args'[i] == args[i];
    assert args'[|args|] == (name, val);
  }

  lemma DistinctAfterString(args: seq<Arg>, strs: map<string, string>, bytes: map<seq<byte>, string>,
                            name: string, s: string)
    requires NamesDistinct(args, strs, bytes) && Unused(name, args, strs, bytes) && s !in strs
    ensures NamesDistinct(args, strs[s := name], bytes)
  {
  }

  lemma DistinctAfterBytes(args: seq<Arg>, strs: map<string, string>, bytes: map<seq<byte>, string>,
                           name: string, b: seq<byte>)
    requires NamesDistinct(args, strs, bytes) && Unused(name, args, strs, bytes) && b !in bytes
    ensures NamesDistinct(args, strs, bytes[b := name])
  {
  }

  /** Appending a static argument under the next generated name keeps the invariant. */
  lemma PushStaticKeepsValid(prefix: string, counter: nat, args: seq<Arg>,
                             strs: map<string, string>, bytes: map<seq<byte>, string>, val: SqlValue)
    requires ValidState(prefix, counter, args, strs, bytes)
    ensures ValidState(prefix, counter + 1, args + [(ArgName(prefix, counter), val)], strs, bytes)
  {
    var next := ArgName(prefix, counter);
    NextNameUnused(prefix, counter, args, strs, bytes);
    DistinctAfterStatic(args, strs, bytes, next, val);
    AllGeneratedGrows(prefix, counter, args, strs, bytes);
    GeneratedBelowGrows(prefix, next, counter);
    var args' := args + [(next, val)];
    assert forall i :: 0 <= i < |args| ==> args'[i] == args[i];
  }

  /** Recording a new string under the next generated name keeps the invariant. */
  lemma InsertStringKeepsValid(prefix: string, counter: nat, args: seq<Arg>,
                               strs: map<string, string>, bytes: map<seq<byte>, string>, s: string)
    requires ValidState(prefix, counter, args, strs, bytes)
    requires s !in strs
    ensures ValidState(prefix, counter + 1, args, strs[s := ArgName(prefix, counter)], bytes)
  {
    NextNameUnused(prefix, counter, args, strs, bytes);
    DistinctAfterString(args, strs, bytes, ArgName(prefix, counter), s);
    AllGeneratedGrows(prefix, counter, args, strs, bytes);
    GeneratedBelowGrows(prefix, ArgName(prefix, counter), counter);
  }

  /** Recording a new UUID under the next generated name keeps the invariant. */
  lemma InsertBytesKeepsValid(prefix: string, counter: nat, args: seq<Arg>,
                              strs: map<string, string>, bytes: map<seq<byte>, string>, b: seq<byte>)
    requires ValidState(prefix, counter, args, strs, bytes)
    requires b !in bytes
    ensures ValidState(prefix, counter + 1, args, strs, bytes[b := ArgName(prefix, counter)])
  {
    NextNameUnused(prefix, counter, args, strs, bytes);
    DistinctAfterBytes(args, strs, bytes, ArgName(prefix, counter), b);
    AllGeneratedGrows(prefix, counter, args, strs, bytes);
    GeneratedBelowGrows(prefix, ArgName(prefix, counter), counter);
  }

  /** The (name, value) entries of a value-to-name map, in the map's iteration order. */
  method Entries<K>(m: map<K, string>, wrap: K -> SqlValue) returns (es: seq<Arg>)
    ensures |es| == |m|
    ensures (forall k, l :: k in m && l in m && k != l ==> m[k] != m[l]) ==> ArgOrder.DistinctNames(es)
    ensures forall i :: 0 <= i < |es| ==> exists k :: k in m && es[i] == (m[k], wrap(k))
    ensures forall k :: k in m ==> (m[k], wrap(k)) in es
  {
    es := [];
    var rest := m;
    while rest != map[]
      invariant forall k :: k in rest ==> k in m && rest[k] == m[k]
      invariant |es| + |rest| == |m|
      invariant (forall k, l :: k in m && l in m && k != l ==> m[k] != m[l]) ==> ArgOrder.DistinctNames(es)
      invariant forall i :: 0 <= i < |es| ==> exists k :: k in m && k !in rest && es[i] == (m[k], wrap(k))
      invariant forall k :: k in m && k !in rest ==> (m[k], wrap(k)) in es
      decreases |rest|
    {
      var k :| k in rest;
      es := es + [(rest[k], wrap(k))];
      assert (rest - {k}).Keys == rest.Keys - {k};
      rest := rest - {k};
    }
  }

  /** `e` is kept by the builder: among the static arguments or in one of the two maps. */
  ghost predicate Stored(e: Arg, args: seq<Arg>, strs: map<string, string>, bytes: map<seq<byte>, string>) {
    e in args
    || (e.1.Text? && e.1.text in strs && strs[e.1.text] == e.0)
    || (e.1.Blob? && e.1.bytes in bytes && bytes[e.1.bytes] == e.0)
  }

  /** `texts` lists the entries of `strs` as text arguments. */
  ghost predicate TextEntries(strs: map<string, string>, texts: seq<Arg>) {
    (forall i :: 0 <= i < |texts| ==> exists k :: k in strs && texts[i] == (strs[k], Text(k)))
    && (forall k :: k in strs ==> (strs[k], Text(k)) in texts)
  }

  /** `blobs` lists the entries of `bytes` as blob arguments. */
  ghost predicate BlobEntries(bytes: map<seq<byte>, string>, blobs: seq<Arg>) {
    (forall i :: 0 <= i < |blobs| ==> exists k :: k in bytes && blobs[i] == (bytes[k], Blob(k)))
    && (forall k :: k in bytes ==> (bytes[k], Blob(k)) in blobs)
  }

  /** Gathering the three stores keeps every name distinct. */
  lemma CollectedDistinct(args: seq<Arg>, strs: map<string, string>, bytes: map<seq<byte>, string>,
                          texts: seq<Arg>, blobs: seq<Arg>)
    requires NamesDistinct(args, strs, bytes)
    requires TextEntries(strs, texts) && ArgOrder.DistinctNames(texts)
    requires BlobEntries(bytes, blobs) && ArgOrder.DistinctNames(blobs)
    ensures ArgOrder.DistinctNames(args + texts + blobs)
  {
    forall i, j | 0 <= i < |args| && 0 <= j < |texts| ensures args[i].0 != texts[j].0 {
      assert texts[j] in texts;
      var k :| k in strs && texts[j] == (strs[k], Text(k));
    }
    ArgOrder.ConcatDistinct(args, texts);
    forall i, j | 0 <= i < |args + texts| && 0 <= j < |blobs| ensures (args + texts)[i].0 != blobs[j].0 {
      assert blobs[j] in blobs;
      var b :| b in bytes && blobs[j] == (bytes[b], Blob(b));
      if i >= |args| {
        assert texts[i - |args|] in texts;
        var k :| k in strs && texts[i - |args|] == (strs[k], Text(k));
      }
    }
    ArgOrder.ConcatDistinct(args + texts, blobs);
  }

  /** Gathering the three stores yields exactly the stored arguments. */
  lemma CollectedMembers(args: seq<Arg>, strs: map<string, string>, bytes: map<seq<byte>, string>,
                         texts: seq<Arg>, blobs: seq<Arg>)
    requires TextEntries(strs, texts) && BlobEntries(bytes, blobs)
    ensures forall e :: e in args + texts + blobs <==> Stored(e, args, strs, bytes)
  {
    forall e ensures e in args + texts + blobs <==> Stored(e, args, strs, bytes) {
      if e in texts {
        var k :| k in strs && e == (strs[k], Text(k));
      }
      if e in blobs {
        var b :| b in bytes && e == (bytes[b], Blob(b));
      }
    }
  }

  /** Sorting the gathered stores yields every stored argument once, in strictly increasing
      name order. */
  lemma SortedCollection(args: seq<Arg>, strs: map<string, string>, bytes: map<seq<byte>, string>,
                         texts: seq<Arg>, blobs: seq<Arg>, sorted: seq<Arg>)
    requires NamesDistinct(args, strs, bytes)
    requires TextEntries(strs, texts) && ArgOrder.DistinctNames(texts)
    requires BlobEntries(bytes, blobs) && ArgOrder.DistinctNames(blobs)
    requires ArgOrder.SortedByName(sorted) && multiset(sorted) == multiset(args + texts + blobs)
    ensures ArgOrder.StrictlySortedByName(sorted) && ArgOrder.DistinctNames(sorted)
    ensures |sorted| == |args| + |texts| + |blobs|
    ensures forall e :: e in sorted <==> Stored(e, args, strs, bytes)
  {
    var all := args + texts + blobs;
    CollectedDistinct(args, strs, bytes, texts, blobs);
    CollectedMembers(args, strs, bytes, texts, blobs);
    ArgOrder.PermutationKeepsDistinct(all, sorted);
    ArgOrder.SortedDistinctIsStrict(sorted);
    forall e ensures e in sorted <==> Stored(e, args, strs, bytes) {
      assert e in sorted <==> e in multiset(sorted);
      assert e in all <==> e in multiset(all);
    }
    assert |sorted| == |multiset(sorted)| == |multiset(all)| == |all|;
  }

  /** Some entry of `s` is named `name`. */
  predicate HasArgNamed(s: seq<Arg>, name: string) {
    exists i :: 0 <= i < |s| && s[i].0 == name
  }

  /** The names generated below `n`, as a set. */
  ghost function GeneratedNames(prefix: string, n: nat): (r: set<string>)
    ensures |r| <= n
  {
    if n == 0 then {} else GeneratedNames(prefix, n - 1) + {ArgName(prefix, n - 1)}
  }

  lemma {:induction false} GeneratedNamesHold(prefix: string, n: nat, name: string)
    ensures name in GeneratedNames(prefix, n) <==> GeneratedBelow(prefix, name, n)
  {
    if n > 0 {
      GeneratedNamesHold(prefix, n - 1, name);
      if GeneratedBelow(prefix, name, n - 1) {
        GeneratedBelowGrows(prefix, name, n - 1);
      }
      if GeneratedBelow(prefix, name, n) && name != ArgName(prefix, n - 1) {
        var k: nat :| k < n && name == ArgName(prefix, k);
        assert GeneratedBelow(prefix, name, n - 1);
      }
    }
  }

  /** A list whose names are distinct and all drawn from `names` is no longer than `names`. */
  lemma {:induction false} DistinctNamesFit(s: seq<Arg>, names: set<string>)
    requires ArgOrder.DistinctNames(s)
    requires forall i :: 0 <= i < |s| ==> s[i].0 in names
    ensures |s| <= |names|
  {
    if s != [] {
      var rest := names - {s[0].0};
      forall i | 0 <= i < |s| - 1 ensures s[1..][i].0 in rest {
        assert s[1..][i] == s[i + 1];
      }
      assert ArgOrder.DistinctNames(s[1..]) by {
        forall i, j | 0 <= i < j < |s| - 1 ensures s[1..][i].0 != s[1..][j].0 {
          assert s[1..][i] == s[i + 1] && s[1..][j] == s[j + 1];
        }
      }
      DistinctNamesFit(s[1..], rest);
    }
  }

  /** Pigeonhole: `n` distinct names, each generated below `n`, use up every name generated
      below `n`. */
  lemma EveryNameTaken(prefix: string, n: nat, s: seq<Arg>, k: nat)
    requires |s| == n && ArgOrder.DistinctNames(s)
    requires forall i :: 0 <= i < |s| ==> GeneratedBelow(prefix, s[i].0, n)
    requires k < n
    ensures HasArgNamed(s, ArgName(prefix, k))
  {
    var missing := ArgName(prefix, k);
    if forall i :: 0 <= i < |s| ==> s[i].0 != missing {
      var names := GeneratedNames(prefix, n) - {missing};
      GeneratedNamesHold(prefix, n, missing);
      forall i | 0 <= i < |s| ensures s[i].0 in names {
        GeneratedNamesHold(prefix, n, s[i].0);
      }
      DistinctNamesFit(s, names);
      assert false;
    }
  }

  /** A result holding `counter` distinct stored arguments, every stored name generated below
      `counter`, has an argument under each of those generated names. */
  lemma SortedCoversGenerated(prefix: string, counter: nat, args: seq<Arg>,
                              strs: map<string, string>, bytes: map<seq<byte>, string>,
                              sorted: seq<Arg>)
    requires AllGenerated(prefix, counter, args, strs, bytes)
    requires |sorted| == counter && ArgOrder.DistinctNames(sorted)
    requires forall e :: e in sorted ==> Stored(e, args, strs, bytes)
    ensures forall k :: 0 <= k < counter ==> HasArgNamed(sorted, ArgName(prefix, k))
  {
    forall i | 0 <= i < |sorted| ensures GeneratedBelow(prefix, sorted[i].0, counter) {
      assert sorted[i] in sorted;
    }
    forall k | 0 <= k < counter ensures HasArgNamed(sorted, ArgName(prefix, k)) {
      EveryNameTaken(prefix, counter, sorted, k);
    }
  }

  class SQLiteQueryBuilder {
    var sql: string
    const argPrefix: string
    var argCounter: nat
    var byteArgs: map<seq<byte>, string>
    var stringArgs: map<string, string>
    var args: seq<Arg>

    /** Every argument name in use was generated, none is used twice, and there are
        as many stored arguments as generated names. */
    ghost predicate Valid()
      reads this`argCounter, this`args, this`stringArgs, this`byteArgs
    {
      ValidState(argPrefix, argCounter, args, stringArgs, byteArgs)
    }

    constructor New()
      ensures Valid()
      ensures sql == "" && argPrefix == DefaultPrefix && argCounter == 0
      ensures byteArgs == map[] && stringArgs == map[] && args == []
    {
      sql := "";
      argPrefix := DefaultPrefix;
      argCounter := 0;
      byteArgs := map[];
      stringArgs := map[];
      args := [];
    }

    constructor WithPrefix(prefix: string)
      ensures Valid()
      ensures sql == "" && argPrefix == prefix && argCounter == 0
      ensures byteArgs == map[] && stringArgs == map[] && args == []
    {
      sql := "";
      argPrefix := prefix;
      argCounter := 0;
      byteArgs := map[];
      stringArgs := map[];
      args := [];
    }

    method NextArgumentName() returns (name: string)
      modifies this
      ensures name == ArgName(argPrefix, old(argCounter)) && argCounter == old(argCounter) + 1
      ensures sql == old(sql) && args == old(args)
      ensures stringArgs == old(stringArgs) && byteArgs == old(byteArgs)
    {
      name := argPrefix + NatToString(argCounter);
      argCounter := argCounter + 1;
    }

    method PushSql(fragment: string)
      modifies this
      ensures sql == old(sql) + fragment
      ensures unchanged(this`argCounter, this`args, this`stringArgs, this`byteArgs)
    {
      sql := sql + fragment;
    }

    method PushNamedArg(name: string)
      modifies this
      ensures sql == old(sql) + name
      ensures unchanged(this`argCounter, this`args, this`stringArgs, this`byteArgs)
    {
      PushSql(name);
    }

    method PushStaticArg(val: SqlValue)
      requires Valid()
      modifies this
      ensures Valid()
      ensures sql == old(sql) + ArgName(argPrefix, old(argCounter))
      ensures args == old(args) + [(ArgName(argPrefix, old(argCounter)), val)]
      ensures argCounter == old(argCounter) + 1
      ensures stringArgs == old(stringArgs) && byteArgs == old(byteArgs)
    {
      PushStaticKeepsValid(argPrefix, argCounter, args, stringArgs, byteArgs, val);
      var arg := NextArgumentName();
      PushNamedArg(arg);
      args := args + [(arg, val)];
    }

    method PushIdentifier(identifier: string)
      modifies this
      ensures sql == old(sql) + Identifiers.Quote(identifier)
      ensures unchanged(this`argCounter, this`args, this`stringArgs, this`byteArgs)
    {
      PushSql("`");
      PushSql(Identifiers.EscapeBackticks(identifier));
      PushSql("`");
    }

    /** The `Uuid` case of `push_typed_value`: one argument per distinct UUID. */
    method PushUuid(bytes: seq<byte>)
      requires Valid()
      modifies this
      ensures Valid()
      ensures bytes in old(byteArgs) ==>
        sql == old(sql) + old(byteArgs)[bytes]
        && unchanged(this`argCounter, this`args, this`stringArgs, this`byteArgs)
      ensures bytes !in old(byteArgs) ==>
        sql == old(sql) + ArgName(argPrefix, old(argCounter))
        && byteArgs == old(byteArgs)[bytes := ArgName(argPrefix, old(argCounter))]
        && argCounter == old(argCounter) + 1
        && unchanged(this`args, this`stringArgs)
    {
      if bytes in byteArgs {
        PushNamedArg(byteArgs[bytes]);
      } else {
        InsertBytesKeepsValid(argPrefix, argCounter, args, stringArgs, byteArgs, bytes);
        var arg := NextArgumentName();
        PushNamedArg(arg);
        byteArgs := byteArgs[bytes := arg];
      }
    }

    /** The `String` case of `push_typed_value`: one argument per distinct string. */
    method PushString(s: string)
      requires Valid()
      modifies this
      ensures Valid()
      ensures s in old(stringArgs) ==>
        sql == old(sql) + old(stringArgs)[s]
        && unchanged(this`argCounter, this`args, this`stringArgs, this`byteArgs)
      ensures s !in old(stringArgs) ==>
        sql == old(sql) + ArgName(argPrefix, old(argCounter))
        && stringArgs == old(stringArgs)[s := ArgName(argPrefix, old(argCounter))]
        && argCounter == old(argCounter) + 1
        && unchanged(this`args, this`byteArgs)
    {
      if s in stringArgs {
        PushNamedArg(stringArgs[s]);
      } else {
        InsertStringKeepsValid(argPrefix, argCounter, args, stringArgs, byteArgs, s);
        var arg := NextArgumentName();
        PushNamedArg(arg);
        stringArgs := stringArgs[s := arg];
      }
    }

    method PushTypedValue(v: TypedValue)
      requires Valid()
      modifies this
      ensures Valid()
      ensures Literal(v).Some? ==>
        sql == old(sql) + Literal(v).value
        && unchanged(this`argCounter, this`args, this`stringArgs, this`byteArgs)
      // A string or UUID seen before reuses its argument; nothing else changes.
      ensures v.String? && v.s in old(stringArgs) ==>
        sql == old(sql) + old(stringArgs)[v.s]
        && unchanged(this`argCounter, this`args, this`stringArgs, this`byteArgs)
      ensures v.Uuid? && v.uuid in old(byteArgs) ==>
        sql == old(sql) + old(byteArgs)[v.uuid]
        && unchanged(this`argCounter, this`args, this`stringArgs, this`byteArgs)
      // A new one gets the next generated name and one map entry.
      ensures v.String? && v.s !in old(stringArgs) ==>
        sql == old(sql) + ArgName(argPrefix, old(argCounter))
        && stringArgs == old(stringArgs)[v.s := ArgName(argPrefix, old(argCounter))]
        && argCounter == old(argCounter) + 1
        && unchanged(this`args, this`byteArgs)
      ensures v.Uuid? && v.uuid !in old(byteArgs) ==>
        sql == old(sql) + ArgName(argPrefix, old(argCounter))
        && byteArgs == old(byteArgs)[v.uuid := ArgName(argPrefix, old(argCounter))]
        && argCounter == old(argCounter) + 1
        && unchanged(this`args, this`stringArgs)
      // A keyword always takes a new argument.
      ensures v.Keyword? ==>
        sql == old(sql) + ArgName(argPrefix, old(argCounter))
        && args == old(args) + [(ArgName(argPrefix, old(argCounter)), Text(v.keyword))]
        && argCounter == old(argCounter) + 1
        && unchanged(this`stringArgs, this`byteArgs)
    {
      match v {
        case Ref(e) => PushSql(IntToString(e as int));
        case Boolean(b) => PushSql(if b then "1" else "0");
        case Long(x) => PushSql(IntToString(x as int));
        case Instant(m) => PushSql(IntToString(m as int));
        case Uuid(bytes) => PushUuid(bytes);
        case String(s) => PushString(s);
        case Keyword(k) => PushStaticArg(Text(k));
      }
    }

    /** A caller-named placeholder `$<name>`, validated by the corrected check: the name
        must be alphanumeric and its placeholder must not look like a generated name. */
    method PushBindParam(name: string) returns (r: Result<(), SqlError>)
      modifies this
      ensures r == IntendedBindParamCheck(argPrefix, name)
      ensures r.Ok? ==> sql == old(sql) + "$" + name
      ensures r.Ok? ==> forall k: nat :: "$" + name != ArgName(argPrefix, k)
      ensures r.Err? ==> sql == old(sql)
      ensures unchanged(this`argCounter, this`args, this`stringArgs, this`byteArgs)
    {
      var placeholder := "$" + name;
      if !(forall i :: 0 <= i < |name| ==> IsParamChar(name[i])) {
        return Err(InvalidParameterName(name));
      }
      if argPrefix <= placeholder && AllDigits(placeholder[|argPrefix|..]) {
        return Err(BindParamCouldBeGenerated(name));
      }
      forall k: nat ensures placeholder != ArgName(argPrefix, k) {
        IntendedCheckPreventsCollision(argPrefix, name, k);
      }
      PushSql("$");
      PushSql(name);
      r := Ok(());
    }

    /** The SQL text and every argument exactly once, sorted by name; since names are
        distinct, the sorted order is unique (ArgOrder.SortedUnique). */
    method Finish() returns (q: SqlQuery)
      requires Valid()
      ensures q.sql == sql
      ensures |q.args| == argCounter
      ensures ArgOrder.StrictlySortedByName(q.args)
      ensures forall e :: e in q.args <==> Stored(e, args, stringArgs, byteArgs)
      ensures forall k :: 0 <= k < argCounter ==> HasArgNamed(q.args, ArgName(argPrefix, k))
    {
      var texts := Entries(stringArgs, s => Text(s));
      var blobs := Entries(byteArgs, b => Blob(b));
      var sorted := ArgOrder.SortByName(args + texts + blobs);
      assert TextEntries(stringArgs, texts) && BlobEntries(byteArgs, blobs);
      SortedCollection(args, stringArgs, byteArgs, texts, blobs, sorted);
      SortedCoversGenerated(argPrefix, argCounter, args, stringArgs, byteArgs, sorted);
      q := SqlQuery(sql, sorted);
    }
  }

  /** The default builder's first two generated names. */
  lemma FirstArgNames()
    ensures ArgName(DefaultPrefix, 0) == "$v0" && ArgName(DefaultPrefix, 1) == "$v1"
  {
    assert NatToString(0) == "0" && NatToString(1) == "1";
  }

  /** The first half of the example below: `SELECT $v0` with one argument. */
  method BuildExampleStart() returns (b: SQLiteQueryBuilder)
    ensures fresh(b) && b.Valid() && b.argPrefix == DefaultPrefix && b.argCounter == 1
    ensures b.stringArgs == map[] && b.byteArgs == map[]
    ensures b.sql == "SELECT $v0"
    ensures b.args == [("$v0", Text("frobnicate"))]
  {
    FirstArgNames();
    b := new SQLiteQueryBuilder.New();
    b.PushSql("SELECT ");
    assert b.sql == "SELECT " && b.Valid();
    b.PushStaticArg(Text("frobnicate"));
    assert b.sql == "SELECT " + "$v0";
  }

  /** The argument part of the crate's own test: two static arguments pushed between
      SQL fragments. */
  method BuildExample() returns (b: SQLiteQueryBuilder)
    ensures b.Valid() && b.stringArgs == map[] && b.byteArgs == map[]
    ensures b.sql == "SELECT $v0 OR $v1"
    ensures b.args == [("$v0", Text("frobnicate")), ("$v1", Text("swoogle"))]
  {
    FirstArgNames();
    b := BuildExampleStart();
    b.PushSql(" OR ");
    b.PushStaticArg(Text("swoogle"));
  }

  /** `finish` on that builder: the text unchanged, the arguments `$v0`, `$v1` in order. */
  method ExampleQuery() returns (q: SqlQuery)
    ensures q.sql == "SELECT $v0 OR $v1"
    ensures q.args == [("$v0", Text("frobnicate")), ("$v1", Text("swoogle"))]
  {
    var b := BuildExample();
    var first, second := ("$v0", Text("frobnicate")), ("$v1", Text("swoogle"));
    q := b.Finish();
    assert |q.args| == 2;
    assert q.args[0] in q.args && q.args[1] in q.args;
    assert Stored(q.args[0], b.args, b.stringArgs, b.byteArgs) && Stored(q.args[1], b.args, b.stringArgs, b.byteArgs);
    assert q.args[0] in [first, second] && q.args[1] in [first, second];
    ArgOrder.LexLessIrreflexive(q.args[0].0);
    assert !ArgOrder.LexLess("$v1", "$v0");
  }
}
