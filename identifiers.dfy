/** SQLite's quoting of identifiers with backticks, as `push_identifier` writes it,
    and a reader for such a quoted identifier. */
module Identifiers {
  import opened Wrappers

  /** Every backtick doubled, every other character kept (Rust's `replace("`", "``")`). */
  function EscapeBackticks(s: string): (r: string)
    ensures |r| >= |s|
  {
    if s == [] then []
    else (if s[0] == '`' then "``" else [s[0]]) + EscapeBackticks(s[1..])
  }

  /** An identifier without backticks is quoted as it is. */
  lemma {:induction false} EscapeWithoutBackticks(s: string)
    requires forall i :: 0 <= i < |s| ==> s[i] != '`'
    ensures EscapeBackticks(s) == s
  {
    if s != [] {
      EscapeWithoutBackticks(s[1..]);
      assert s == [s[0]] + s[1..];
    }
  }

  /** The quoted form of an identifier: a backtick, the escaped identifier, a backtick. */
  function Quote(identifier: string): (r: string)
    ensures |r| >= |identifier| + 2 && r[0] == '`' && r[|r| - 1] == '`'
  {
    "`" + EscapeBackticks(identifier) + "`"
  }

  /** Reads the body of a quoted identifier that follows its opening backtick: a doubled
      backtick stands for one backtick, a single backtick closes it. Returns the
      identifier and the text after the closing backtick. */
  function ReadQuotedBody(s: string): Option<(string, string)>
    decreases |s|
  {
    if s == [] then None
    else if s[0] == '`' then
      if |s| >= 2 && s[1] == '`' then
        match ReadQuotedBody(s[2..])
        case None => None
        case Some(p) => Some((['`'] + p.0, p.1))
      else Some(([], s[1..]))
    else
      match ReadQuotedBody(s[1..])
      case None => None
      case Some(p) => Some(([s[0]] + p.0, p.1))
  }

  function ReadQuoted(s: string): Option<(string, string)>
  {
    if |s| >= 1 && s[0] == '`' then ReadQuotedBody(s[1..]) else None
  }

  lemma {:induction false} ReadQuotedBodyOfEscape(identifier: string, rest: string)
    requires rest == [] || rest[0] != '`'
    ensures ReadQuotedBody(EscapeBackticks(identifier) + "`" + rest) == Some((identifier, rest))
    decreases |identifier|
  {
    var s := EscapeBackticks(identifier) + "`" + rest;
    if identifier != [] {
      ReadQuotedBodyOfEscape(identifier[1..], rest);
      var tail := EscapeBackticks(identifier[1..]) + "`" + rest;
      assert identifier == [identifier[0]] + identifier[1..];
      if identifier[0] == '`' {
        assert EscapeBackticks(identifier) == "``" + EscapeBackticks(identifier[1..]);
        assert s == "``" + tail;
        assert s[0] == '`' && s[1] == '`' && s[2..] == tail;
        assert ReadQuotedBody(s) == Some((['`'] + identifier[1..], rest));
      } else {
        assert EscapeBackticks(identifier) == [identifier[0]] + EscapeBackticks(identifier[1..]);
        assert s == [identifier[0]] + tail;
        assert s[0] != '`' && s[1..] == tail;
        assert ReadQuotedBody(s) == Some(([identifier[0]] + identifier[1..], rest));
      }
    } else {
      assert s == "`" + rest;
      assert s[1..] == rest;
    }
  }

  /** Reading back a quoted identifier gives the identifier, and leaves what follows it,
      unless what follows starts with a backtick (which would read as an escaped one). */
  lemma ReadQuotedOfQuote(identifier: string, rest: string)
    requires rest == [] || rest[0] != '`'
    ensures ReadQuoted(Quote(identifier) + rest) == Some((identifier, rest))
  {
    var s := Quote(identifier) + rest;
    assert s[1..] == EscapeBackticks(identifier) + "`" + rest;
    ReadQuotedBodyOfEscape(identifier, rest);
  }

  lemma QuoteExamples()
    ensures Quote("foo") == "`foo`"
    ensures Quote("a`b") == "`a``b`"
  {
    EscapeWithoutBackticks("foo");
    assert EscapeBackticks("a`b") == "a``b" by {
      assert "a`b"[1..] == "`b";
      assert "`b"[1..] == "b";
      EscapeWithoutBackticks("b");
    }
  }
}
