# Mentat SQL query builder and database string helpers, in Dafny

This project models two pieces of Mentat, an embedded store that keeps its data in
SQLite:

- **`SQLiteQueryBuilder`** (`sql/src/lib.rs`). It builds one SQL statement from pushed
  fragments: plain SQL text, backtick-quoted identifiers, typed values and named bind
  parameters. Each value that goes in as an argument gets a generated name, `$v0`,
  `$v1`, and so on (the `$v` prefix can be changed). A repeated string or UUID shares
  one argument. `finish` hands over the text together with every argument once, sorted
  by name. The builder is a Dafny class, `SqlBuilder.SQLiteQueryBuilder`, with the
  source's fields. Its invariant `Valid()` says three things:
  - every stored argument has one of the first `argCounter` generated names;
  - there are exactly `argCounter` stored arguments;
  - no name is used twice.
- **`to_namespaced_keyword`** and **`repeat_values`** (`db/src/lib.rs`). These are pure
  string functions. The first parses `:namespace/name`, where either of the two
  separators may be `:` or `/`. The second builds SQL `VALUES` blocks such as
  `(?, ?), (?, ?)`. Both are modelled as Dafny functions with lemmas.

Supporting modules:

- `Decimal`: Rust's decimal rendering of integers, with a reader for it.
- `Identifiers`: backtick quoting, with a reader that undoes it.
- `ArgOrder`: Rust's `String` order and the sort `finish` uses.
- `Wrappers`: `Option` and `Result`.

## Model

| member | source | states |
|---|---|---|
| SqlBuilder.SQLiteQueryBuilder.New | sql/src/lib.rs:91-93 | A fresh builder has empty text, prefix `$v`, counter 0 and no arguments, and satisfies the invariant |
| SqlBuilder.SQLiteQueryBuilder.WithPrefix | sql/src/lib.rs:95-105 | A fresh builder with the given prefix has empty text, counter 0 and empty argument stores, and satisfies the invariant |
| SqlBuilder.SQLiteQueryBuilder.NextArgumentName | sql/src/lib.rs:107-111 | Returns the prefix followed by the counter in decimal and advances the counter by one; nothing else changes |
| Decimal.NatToString | sql/src/lib.rs:108 | A counter is written as a non-empty run of decimal digits with no leading zero (only 0 starts with `0`) |
| Decimal.NatToStringValue | sql/src/lib.rs:108 | The digits of a counter read back as that counter |
| Decimal.NatToStringInjective | sql/src/lib.rs:108 | Different counters are written differently |
| SqlBuilder.ArgName | sql/src/lib.rs:108 | The name of argument number `n`: the prefix followed by `n` in decimal. It has no contract of its own; `SqlBuilder.ArgNameInjective` and `SqlBuilder.FirstArgNames` state its properties |
| SqlBuilder.ArgNameInjective | sql/src/lib.rs:107-111 | Two generated names under one prefix are equal only if their counters are |
| SqlBuilder.NextNameUnused | sql/src/lib.rs:107-111 | The name the counter is about to hand out is not used by any stored argument |
| SqlBuilder.GeneratedBelowGrows | sql/src/lib.rs:109 | A name generated below `n` is generated below `n + 1`, and the name numbered `n` is generated below `n + 1` |
| SqlBuilder.AllGeneratedGrows | sql/src/lib.rs:109 | Advancing the counter keeps every stored name among the generated ones |
| SqlBuilder.SQLiteQueryBuilder.PushSql | sql/src/lib.rs:126-128 | Appends the fragment to the text; the argument state is unchanged |
| SqlBuilder.SQLiteQueryBuilder.PushNamedArg | sql/src/lib.rs:120-122 | Appends the argument's name to the text; the argument state is unchanged |
| SqlBuilder.SQLiteQueryBuilder.PushStaticArg | sql/src/lib.rs:113-118 | Writes the next generated name, appends (name, value) to the arguments and advances the counter; the maps are unchanged and the invariant is kept |
| SqlBuilder.DistinctAfterStatic | sql/src/lib.rs:117 | Appending an argument under an unused name keeps all names distinct |
| SqlBuilder.PushStaticKeepsValid | sql/src/lib.rs:113-118 | Appending under the next generated name and advancing the counter keeps the invariant |
| SqlBuilder.SQLiteQueryBuilder.PushIdentifier | sql/src/lib.rs:130-135 | Appends the identifier with backticks around it and each inner backtick doubled; the argument state is unchanged |
| Identifiers.Quote | sql/src/lib.rs:130-135 | The identifier between two backticks, with inner backticks doubled; the result starts and ends with a backtick. `Identifiers.ReadQuotedOfQuote` proves it reads back |
| Identifiers.EscapeBackticks | sql/src/lib.rs:132 | Doubling backticks never shortens the identifier |
| Identifiers.EscapeWithoutBackticks | sql/src/lib.rs:132 | An identifier without backticks is left as it is |
| Identifiers.ReadQuotedBodyOfEscape | sql/src/lib.rs:132-133 | Reading an escaped identifier up to its closing backtick gives back the identifier and the rest of the text |
| Identifiers.ReadQuotedOfQuote | sql/src/lib.rs:130-135 | The quoted identifier reads back as the identifier, whatever SQL follows it, unless the next character is itself a backtick |
| Identifiers.QuoteExamples | sql/src/lib.rs:252 | `foo` is written as `` `foo` ``, and a backtick inside a name is doubled |
| SqlBuilder.SQLiteQueryBuilder.PushTypedValue | sql/src/lib.rs:137-184 | Integers, booleans and instants are written inline. A string or UUID seen before reuses its argument name. A new one gets the next name and one map entry. A keyword always gets a new text argument. The invariant is kept |
| SqlBuilder.Literal | sql/src/lib.rs:139-153 | The text a typed value is written as inline, or none when it goes in as an argument. It has no contract of its own; `SqlBuilder.LiteralReadsBack` states its properties |
| Decimal.IntToString | sql/src/lib.rs:140-152 | An integer's decimal rendering, with a leading `-` when negative. It has no contract of its own; `Decimal.ParseIntToString` states that it reads back |
| SqlBuilder.LiteralReadsBack | sql/src/lib.rs:139-153 | Exactly UUIDs, strings and keywords go in as arguments. An entity id, long or instant is written as text that reads back as the same integer, and a boolean as `1` or `0` |
| Decimal.ParseIntToString | sql/src/lib.rs:140-142 | The decimal rendering of any integer, negative ones included, reads back as that integer |
| SqlBuilder.SQLiteQueryBuilder.PushUuid | sql/src/lib.rs:154-164 | A known UUID writes its existing name and changes nothing else. A new one writes the next generated name, records it in the byte map and advances the counter. The invariant is kept |
| SqlBuilder.DistinctAfterBytes | sql/src/lib.rs:162 | Recording a new UUID under an unused name keeps all names distinct |
| SqlBuilder.InsertBytesKeepsValid | sql/src/lib.rs:154-164 | Recording a new UUID under the next generated name and advancing the counter keeps the invariant |
| SqlBuilder.SQLiteQueryBuilder.PushString | sql/src/lib.rs:168-176 | A known string writes its existing name and changes nothing else. A new one writes the next generated name, records it in the string map and advances the counter. The invariant is kept |
| SqlBuilder.DistinctAfterString | sql/src/lib.rs:174 | Recording a new string under an unused name keeps all names distinct |
| SqlBuilder.InsertStringKeepsValid | sql/src/lib.rs:168-176 | Recording a new string under the next generated name and advancing the counter keeps the invariant |
| SqlBuilder.Utf8Len | sql/src/lib.rs:202 | A string's UTF-8 byte length is at least its number of characters |
| SqlBuilder.IsParamChar | sql/src/lib.rs:195 | The characters a parameter name may hold: letters, digits and `_` (ASCII only, see Left out) |
| SqlBuilder.AfterPrefix | sql/src/lib.rs:200-203 | What is left of the name after skipping as many characters as the prefix has UTF-8 bytes: always a suffix of the name |
| Decimal.AllDigits | sql/src/lib.rs:203 | Every character is an ASCII decimal digit, standing for `char::is_numeric` (ASCII only, see Left out). It has no contract of its own; `Decimal.NatToString` ensures its output satisfies it and `Decimal.NatToStringValue` reads such digits back |
| SqlBuilder.BindParamCheck | sql/src/lib.rs:195-206 | The validation as written. A name with a character that is not alphanumeric or `_` is refused as an invalid parameter name, and only such a name. A valid name is accepted if and only if it does not start with the prefix followed only by digits; otherwise it is refused as possibly generated. Every error carries the name |
| SqlBuilder.DefaultPrefixNeverCouldBeGenerated | sql/src/lib.rs:199-206 | Under the default prefix `$v`, the check as written never reports a possibly generated name |
| SqlBuilder.DefaultPrefixCollision | sql/src/lib.rs:199-209 | The name `v0` passes the check as written, and its placeholder `$v0` is the first generated argument name |
| SqlBuilder.IntendedBindParamCheck | sql/src/lib.rs:188-191 | The corrected check keeps the same invalid-name condition. A valid name is accepted if and only if its placeholder `$name` is not the prefix followed only by digits. That set of refused placeholders holds every generated name and a few more, such as `$v00`. Every error carries the name |
| SqlBuilder.IntendedCheckPreventsCollision | sql/src/lib.rs:190-191 | A name the corrected check accepts has a placeholder that differs from every generated name |
| SqlBuilder.IntendedCheckRefusesCollision | sql/src/lib.rs:190-191 | The corrected check refuses `v0` under the default prefix as possibly generated |
| SqlBuilder.CorrectionAcceptsUnrelatedName | sql/src/lib.rs:199-206 | Under the prefix `p` the check as written refuses `p1`, while the corrected check accepts it, and `$p1` is no generated name |
| SqlBuilder.IntendedCheckRefusesGenerated | sql/src/lib.rs:190-191 | A valid name whose placeholder is a generated argument name is refused as possibly generated |
| SqlBuilder.SQLiteQueryBuilder.PushBindParam | sql/src/lib.rs:186-211 | Returns the corrected check's verdict. On success it appends `$name` and the placeholder equals no generated name. On error the text is unchanged. The argument state never changes |
| SqlBuilder.Entries | sql/src/lib.rs:217-226 | The (name, value) entries of a map, in an arbitrary order. There is one entry per key, each key's entry is present, and every entry comes from a key. Names are distinct when the map's names are |
| ArgOrder.ConcatDistinct | sql/src/lib.rs:228-229 | Joining two lists with distinct names and no name in common gives a list with distinct names |
| SqlBuilder.CollectedDistinct | sql/src/lib.rs:228-229 | The static arguments followed by the string and byte entries have pairwise distinct names |
| SqlBuilder.CollectedMembers | sql/src/lib.rs:228-229 | The gathered list holds exactly the arguments the builder stores |
| ArgOrder.LexLess | sql/src/lib.rs:232 | `String::cmp` as lexicographic order on characters: a proper prefix sorts first, otherwise the first differing character decides. The three lemmas below prove it is a strict total order |
| ArgOrder.LexLessIrreflexive | sql/src/lib.rs:232 | No name sorts before itself |
| ArgOrder.LexLessTransitive | sql/src/lib.rs:232 | The name order is transitive |
| ArgOrder.LexLessTotal | sql/src/lib.rs:232 | Of two different names, one sorts before the other |
| ArgOrder.InsertByName | sql/src/lib.rs:232 | Insertion adds exactly the one entry |
| ArgOrder.InsertByNameSorted | sql/src/lib.rs:232 | Inserting into a list sorted by name keeps it sorted |
| ArgOrder.SortByName | sql/src/lib.rs:232 | The result is sorted by name and is a permutation of the input |
| ArgOrder.DistinctNamesOccurOnce | sql/src/lib.rs:228-232 | In a list with distinct names no entry occurs twice |
| ArgOrder.PermutationKeepsDistinct | sql/src/lib.rs:228-232 | Reordering a list with distinct names keeps its names distinct |
| ArgOrder.SortedDistinctIsStrict | sql/src/lib.rs:231-232 | A sorted list with distinct names is strictly increasing by name |
| ArgOrder.SortedUnique | sql/src/lib.rs:217-232 | Two strictly sorted lists with the same entries are equal, so the maps' iteration order never shows in the result |
| SqlBuilder.SortedCollection | sql/src/lib.rs:228-236 | Sorting the gathered arguments gives each stored argument exactly once, strictly increasing by name, with no name twice |
| SqlBuilder.GeneratedNames | sql/src/lib.rs:107-111 | The set of names generated below `n`, which has at most `n` members |
| SqlBuilder.GeneratedNamesHold | sql/src/lib.rs:107-111 | A name is in that set if and only if it is generated below `n` |
| SqlBuilder.DistinctNamesFit | sql/src/lib.rs:228-232 | A list whose names are distinct and all drawn from a set is no longer than the set |
| SqlBuilder.EveryNameTaken | sql/src/lib.rs:107-111 | Pigeonhole: `n` entries with distinct names, each generated below `n`, include the name numbered `k` for every `k < n` |
| SqlBuilder.SortedCoversGenerated | sql/src/lib.rs:213-237 | When the result holds `counter` distinct stored arguments, each of the first `counter` generated names has an argument in it |
| SqlBuilder.SQLiteQueryBuilder.Finish | sql/src/lib.rs:213-237 | Returns the text unchanged and `argCounter` arguments, strictly increasing by name. Each of the first `argCounter` generated names has an argument in the result, so there is one argument per generated name. An entry is in the result if and only if the builder stores it: as a static argument, or as a string or UUID under its recorded name |
| SqlBuilder.FirstArgNames | sql/src/lib.rs:272-273 | The default builder's first two argument names are `$v0` and `$v1` |
| SqlBuilder.BuildExampleStart | sql/src/lib.rs:250-256 | After `SELECT ` and one static argument, the text is `SELECT $v0` and `$v0` holds that argument |
| SqlBuilder.BuildExample | sql/src/lib.rs:250-258 | Two static arguments pushed between fragments become `$v0` and `$v1`, in push order |
| SqlBuilder.ExampleQuery | sql/src/lib.rs:263-275 | `finish` on that builder gives the arguments `$v0` = "frobnicate" and `$v1` = "swoogle", in this order |
| DbStrings.IsSeparator | db/src/lib.rs:88-89 | The split pattern: exactly `:` and `/` separate pieces. It has no contract of its own; `DbStrings.Split` and `DbStrings.Separators` state how it divides a string |
| DbStrings.Split | db/src/lib.rs:89-90 | Splitting on `:` and `/` yields at least one piece, and no piece contains a separator |
| DbStrings.Separators | db/src/lib.rs:89-90 | Every character it collects from the string is one of the two separators |
| DbStrings.SplitRejoin | db/src/lib.rs:89-90 | There is one more piece than separators, and putting them back together gives the original string |
| DbStrings.SplitOfSeparatorFreePrefix | db/src/lib.rs:89-90 | A separator-free start of the string becomes part of the first piece |
| DbStrings.SplitOfRejoin | db/src/lib.rs:89-90 | Splitting separator-free pieces joined by separators gives back those pieces |
| DbStrings.ToNamespacedKeyword | db/src/lib.rs:88-99 | A keyword comes back only for a separator, then a separator-free namespace, another separator and a separator-free name, and that keyword is exactly those two parts. Any other input is a not-yet-implemented error naming the input |
| DbStrings.KeywordRoundTrip | db/src/lib.rs:88-99 | Every such string, with either separator in either place, parses to exactly its namespace and name |
| DbStrings.KeywordExamples | db/src/lib.rs:91-94 | `:ns/name` and `/ns:name` both give the keyword `ns/name` |
| DbStrings.KeywordWithoutLeadingSeparator | db/src/lib.rs:92-98 | `ns/name` is refused, because its first piece is not empty |
| DbStrings.KeywordWithTooManyPieces | db/src/lib.rs:92-98 | `:a/b/c` is refused, because it has a fourth piece |
| DbStrings.Repeat | db/src/lib.rs:117-119 | `n` copies of the string |
| DbStrings.CountConcat | db/src/lib.rs:117-119 | The occurrences of a character in a concatenation add up |
| DbStrings.JoinRepeatCount | db/src/lib.rs:117-119 | `n` copies joined by a separator contain a character `n` times as often as one copy, plus `n - 1` times as often as the separator |
| DbStrings.JoinRepeatLength | db/src/lib.rs:117-119 | `n` copies joined by a separator are `n` copies long plus `n - 1` separators |
| DbStrings.JoinRepeatEnds | db/src/lib.rs:117-119 | `n` copies joined by a separator start with the copy and end with its last character |
| DbStrings.TupleShape | db/src/lib.rs:116-117 | One tuple of `v` values has `v` `?`s, one `(` and one `)`, is `3v` characters long, and starts with `(` and ends with `)` |
| DbStrings.Join | db/src/lib.rs:117-119 | The pieces with the separator between each two of them, as the iterator `join` builds them. `DbStrings.JoinRepeatCount`, `DbStrings.JoinRepeatLength` and `DbStrings.JoinRepeatEnds` state its properties |
| DbStrings.RepeatValues | db/src/lib.rs:113-121 | `t` copies of one `(?, …, ?)` tuple of `v` placeholders, separated by `, `. It has no contract of its own; the lemmas below characterise it |
| DbStrings.RepeatValuesCounts | db/src/lib.rs:101-121 | The block has one `?` per value of every tuple and one pair of parentheses per tuple |
| DbStrings.RepeatValuesLength | db/src/lib.rs:113-121 | The block is `3vt + 2(t - 1)` characters long, and starts with `(` and ends with `)` |
| DbStrings.RepeatValuesExamples | db/src/lib.rs:107-111 | `(1, 3)`, `(3, 1)` and `(2, 2)` give the three documented blocks |

## Left out

- The `Double` case of `push_typed_value` (sql/src/lib.rs:143-150) is left out. It prints a float in Rust's scientific notation, and this model has no floating point. For the same reason the last push of the crate's `test_sql` (a `Double`) is not part of `SqlBuilder.BuildExample`.
- `SqlBuilder.BuildExample` leaves out the identifier pushes of `test_sql`. `Identifiers.QuoteExamples` covers how `foo` is quoted.
- `SqlBuilder.BuildExampleStart` replays only the `SELECT ` push and the first static argument of `test_sql` (sql/src/lib.rs:250-256), without the identifier pushes.
- `SqlBuilder.ExampleQuery` checks the argument list of `test_sql` (sql/src/lib.rs:269-275), not its SQL text (lines 265-268).
- `Instant` is modelled as its count of microseconds. The date-time type and `to_micros` are not part of this model.
- `SqlBuilder.SQLiteQueryBuilder.PushIdentifier` and `SqlBuilder.SQLiteQueryBuilder.PushTypedValue` return nothing. In the source they always return `Ok(())`.
- `SqlBuilder.IsParamChar` and `Decimal.AllDigits` stand for `char::is_alphanumeric` and `char::is_numeric` on ASCII only, and so `SqlBuilder.BindParamCheck`, `SqlBuilder.IntendedBindParamCheck` and `SqlBuilder.SQLiteQueryBuilder.PushBindParam` treat only ASCII letters, digits and `_` as valid name characters. Likewise only ASCII `0`-`9` count as numeric. Rust's `char::is_alphanumeric` and `char::is_numeric` also accept other Unicode letters and digits. The restriction also hides an effect of the skip at sql/src/lib.rs:202: it skips as many characters as the prefix has UTF-8 bytes, so under a prefix with a multi-byte character such as `é` the source skips too far. There `with_prefix("é")` then `push_bind_param("éx")` is refused as possibly generated, although `éx` is never a generated name. `SqlBuilder.AfterPrefix` models the skip as written, but since `é` is not an ASCII parameter character the model refuses `éx` as an invalid name before the skip is reached.
- `SqlBuilder.SQLiteQueryBuilder.PushBindParam` uses the corrected check (see Findings). The check as written is `SqlBuilder.BindParamCheck`.
- `SqlBuilder.SQLiteQueryBuilder.NextArgumentName`: `arg_counter` is an `i64` in the source (sql/src/lib.rs:79), here an unbounded `nat`. Its overflow is not modelled. In the source, `arg_counter + 1` (line 109) overflows on the call that hands out argument 2^63 − 1. A debug build panics there. A release build wraps the counter to −2^63, and later names then carry a minus sign, such as `$v-9223372036854775808`.
- The order in which `HashMap` iterates is not modelled. `SqlBuilder.Entries` picks keys in an arbitrary order, and `ArgOrder.SortedUnique` shows the sorted result does not depend on it.
- `ArgOrder.SortByName` is an insertion sort. Its promise matches what `finish` relies on from the library's `sort_by`: sorted by name and a permutation. Rust's actual sort algorithm is not modelled.
- Reference counting (`Rc`, `ValueRc`) is not modelled. Values are plain Dafny values.
- The `QueryBuilder` trait and its error plumbing are not modelled. The builder's methods are members of the class.
- `DbStrings.ToNamespacedKeyword` builds the keyword from its two parts. Any checks `Keyword::namespaced` makes on its own (edn) are not part of this model. The error is modelled by its message only.
- `DbStrings.RepeatValues` has `values_per_tuple >= 1` and `tuples >= 1` as preconditions. The source checks these with assertions that panic.
- The rest of `db/src/lib.rs` declares and re-exports other modules and defines one constant (`TIMELINE_MAIN`). None of it is part of this model.

## Findings

| source | as written | input that shows it | evidently intended | confidence | as-written member | corrected member |
|---|---|---|---|---|---|---|
| sql/src/lib.rs:199-206 | The second check compares the bare `name` against the prefix. The placeholder actually written is `$name`, and the default prefix `$v` itself starts with `$`. Under the default prefix the check therefore never fires, since the first check already refuses `$`. | `SQLiteQueryBuilder::new()` then `push_bind_param("v0")`: it returns `Ok` and writes `$v0`, the name the builder gives its first generated argument. | Refuse a name whose placeholder `$name` could be a generated name (sql/src/lib.rs:190-191), i.e. compare `"$" + name` against the prefix. | medium, not executed | SqlBuilder.DefaultPrefixCollision | SqlBuilder.IntendedCheckPreventsCollision |

The correction changes behaviour in both directions. Under the default prefix it refuses
names such as `v0`, which the source accepts. Under a prefix without `$`, such as `p`, it
accepts names such as `p1`, which the source refuses as possibly generated even though
their placeholder `$p1` can never be a generated name (`SqlBuilder.CorrectionAcceptsUnrelatedName`).
