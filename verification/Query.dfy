/**
 Search queries (`sanitizeQuery` in server/internal/searchsvc/searchsvc.go): every
 whitespace-separated token becomes one FTS5 string, so none of it is query syntax.
 */
module Query {
  import opened Results
  import Seqs

  // ---- tokens ----

  /** White space as Unicode defines it. */
  predicate IsSpace(c: char) {
    var n := c as int;
    || 9 <= n <= 13 || n == 0x20 || n == 0x85 || n == 0xA0 || n == 0x1680 || 0x2000 <= n <= 0x200A
    || n == 0x2028 || n == 0x2029 || n == 0x202F || n == 0x205F || n == 0x3000
  }

  predicate IsToken(s: string) {
    s != "" && forall i :: 0 <= i < |s| ==> !IsSpace(s[i])
  }

  /** The length of the token at the front of s. */
  function TokenLength(s: string): (n: nat)
    ensures n <= |s| && (forall i :: 0 <= i < n ==> !IsSpace(s[i])) && (n < |s| ==> IsSpace(s[n]))
  {
    if s == "" || IsSpace(s[0]) then 0 else 1 + TokenLength(s[1..])
  }

  /** The whitespace-separated tokens of q. */
  function Fields(q: string): (tokens: seq<string>)
    ensures forall i :: 0 <= i < |tokens| ==> IsToken(tokens[i])
  {
    if q == "" then []
    else if IsSpace(q[0]) then Fields(q[1..])
    else
      var n := TokenLength(q);
      [q[..n]] + Fields(q[n..])
  }

  lemma {:induction false} TokenRuns(s: string, rest: string)
    requires IsToken(s) && (rest == "" || IsSpace(rest[0]))
    ensures TokenLength(s + rest) == |s|
  {
    assert (s + rest)[0] == s[0] && (s + rest)[1..] == s[1..] + rest;
    if |s| > 1 {
      TokenRuns(s[1..], rest);
    } else {
      assert s[1..] + rest == rest;
    }
  }

  /** A token at the front is the first field. */
  lemma TokenFirst(s: string, rest: string)
    requires IsToken(s) && (rest == "" || IsSpace(rest[0]))
    ensures Fields(s + rest) == [s] + Fields(rest)
  {
    TokenRuns(s, rest);
    assert (s + rest)[..|s|] == s && (s + rest)[|s|..] == rest;
  }

  /** A text without spaces is one field, or none if it is empty. */
  lemma FieldOfToken(s: string)
    ensures IsToken(s) ==> Fields(s) == [s]
    ensures Fields("") == []
  {
    if IsToken(s) {
      TokenFirst(s, "");
      assert s + "" == s;
    }
  }

  lemma CutFront(a: string, n: nat, rest: string)
    requires n <= |a|
    ensures a + rest == a[..n] + (a[n..] + rest)
  {
  }

  lemma FrontIsToken(a: string)
    requires a != "" && !IsSpace(a[0])
    ensures IsToken(a[..TokenLength(a)])
  {
    assert TokenLength(a) > 0;
  }

  lemma FrontToken(a: string, rest: string)
    requires a != "" && !IsSpace(a[0]) && (rest == "" || IsSpace(rest[0]))
    ensures Fields(a + rest) == [a[..TokenLength(a)]] + Fields(a[TokenLength(a)..] + rest)
  {
    var n := TokenLength(a);
    FrontIsToken(a);
    CutFront(a, n, rest);
    assert a[n..] + rest == "" || IsSpace((a[n..] + rest)[0]);
    TokenFirst(a[..n], a[n..] + rest);
  }

  /** A space separates: the fields on its two sides do not depend on each other. */
  lemma {:induction false} FieldsSplit(a: string, c: char, b: string)
    requires IsSpace(c)
    ensures Fields(a + [c] + b) == Fields(a) + Fields(b)
    decreases |a|
  {
    if a == "" {
      assert a + [c] + b == [c] + b && ([c] + b)[1..] == b;
    } else if IsSpace(a[0]) {
      FieldsSplit(a[1..], c, b);
      assert (a + [c] + b)[1..] == a[1..] + [c] + b;
    } else {
      var n := TokenLength(a);
      FrontToken(a, [c] + b);
      FieldsSplit(a[n..], c, b);
      Seqs.Associates(a, [c], b);
      Seqs.Associates(a[n..], [c], b);
      Seqs.Associates([a[..n]], Fields(a[n..]), Fields(b));
    }
  }

  predicate AllSpaces(s: string) {
    forall i :: 0 <= i < |s| ==> IsSpace(s[i])
  }

  /** q is the tokens in their order, with spaces before, between and after them, and nothing else. */
  ghost predicate SplitsInto(q: string, tokens: seq<string>)
    decreases |tokens|
  {
    if tokens == [] then AllSpaces(q)
    else exists gap, rest :: FrontSplit(q, gap, tokens[0], rest) && SplitsInto(rest, tokens[1..])
  }

  ghost predicate FrontSplit(q: string, gap: string, token: string, rest: string) {
    && q == gap + (token + rest)
    && AllSpaces(gap) && IsToken(token) && (rest == "" || IsSpace(rest[0]))
  }

  lemma {:induction false} SpacesAreSkipped(gap: string, rest: string)
    requires AllSpaces(gap)
    ensures Fields(gap + rest) == Fields(rest)
  {
    if gap == "" {
      assert gap + rest == rest;
    } else {
      SpacesAreSkipped(gap[1..], rest);
      assert (gap + rest)[0] == gap[0] && (gap + rest)[1..] == gap[1..] + rest;
    }
  }

  lemma {:induction false} SplitIsFields(q: string, tokens: seq<string>)
    requires SplitsInto(q, tokens)
    ensures Fields(q) == tokens
    decreases |tokens|
  {
    if tokens == [] {
      SpacesAreSkipped(q, "");
      assert q + "" == q;
    } else {
      var gap, rest :| FrontSplit(q, gap, tokens[0], rest) && SplitsInto(rest, tokens[1..]);
      SpacesAreSkipped(gap, tokens[0] + rest);
      TokenFirst(tokens[0], rest);
      SplitIsFields(rest, tokens[1..]);
      assert [tokens[0]] + tokens[1..] == tokens;
    }
  }

  lemma SpaceBefore(c: char, q: string, tokens: seq<string>)
    requires IsSpace(c) && SplitsInto(q, tokens)
    ensures SplitsInto([c] + q, tokens)
  {
    if tokens != [] {
      var gap, rest :| FrontSplit(q, gap, tokens[0], rest) && SplitsInto(rest, tokens[1..]);
      Seqs.Associates([c], gap, tokens[0] + rest);
      assert FrontSplit([c] + q, [c] + gap, tokens[0], rest);
    }
  }

  lemma TokenBefore(token: string, q: string, tokens: seq<string>)
    requires IsToken(token) && (q == "" || IsSpace(q[0])) && SplitsInto(q, tokens)
    ensures SplitsInto(token + q, [token] + tokens)
  {
    var all := [token] + tokens;
    assert all[0] == token && all[1..] == tokens;
    assert "" + (token + q) == token + q;
    assert FrontSplit(token + q, "", all[0], q) && SplitsInto(q, all[1..]);
  }

  lemma {:induction false} FieldsSplitIt(q: string)
    ensures SplitsInto(q, Fields(q))
    decreases |q|
  {
    if q != "" && IsSpace(q[0]) {
      FieldsSplitIt(q[1..]);
      SpaceBefore(q[0], q[1..], Fields(q[1..]));
      assert [q[0]] + q[1..] == q;
    } else if q != "" {
      var n := TokenLength(q);
      FrontIsToken(q);
      FieldsSplitIt(q[n..]);
      TokenBefore(q[..n], q[n..], Fields(q[n..]));
      assert q[..n] + q[n..] == q;
    }
  }

  /** The fields of a query are exactly the tokens it splits into at its spaces. */
  lemma FieldsExact(q: string, tokens: seq<string>)
    ensures Fields(q) == tokens <==> SplitsInto(q, tokens)
  {
    FieldsSplitIt(q);
    if SplitsInto(q, tokens) {
      SplitIsFields(q, tokens);
    }
  }

  /**
   In plain ASCII: blanks, tabs and line ends separate, and printable characters do not, be they
   letters, quotation marks or operators of the query language.
   */
  lemma AsciiFields(a: string, c: char, b: string, word: string)
    requires c in {' ', '\t', '\n', '\r'}
    requires word != "" && forall i :: 0 <= i < |word| ==> '!' <= word[i] <= '~'
    ensures Fields(a + [c] + b) == Fields(a) + Fields(b)
    ensures Fields(word) == [word]
  {
    FieldsSplit(a, c, b);
    FieldOfToken(word);
  }

  // ---- quoting ----

  /** Every quotation mark doubled. */
  function Doubled(s: string): string {
    if s == "" then ""
    else (if s[0] == '"' then "\"\"" else [s[0]]) + Doubled(s[1..])
  }

  function Quoted(s: string): string {
    "\"" + Doubled(s) + "\""
  }

  function JoinQuoted(tokens: seq<string>): string {
    if tokens == [] then ""
    else if |tokens| == 1 then Quoted(tokens[0])
    else Quoted(tokens[0]) + " " + JoinQuoted(tokens[1..])
  }

  // ---- the FTS5 reading ----

  /** Reads a string up to its closing quotation mark; a doubled mark is one mark of the string. */
  function ReadString(s: string): (r: Option<(string, string)>)
    ensures r.Some? ==> |r.value.1| < |s|
  {
    if s == "" then None
    else if s[0] != '"' then
      var r := ReadString(s[1..]);
      if r.None? then None else Some(([s[0]] + r.value.0, r.value.1))
    else if |s| > 1 && s[1] == '"' then
      var r := ReadString(s[2..]);
      if r.None? then None else Some(("\"" + r.value.0, r.value.1))
    else Some(("", s[1..]))
  }

  /** The phrases of a query that consists of strings only; None for any other syntax. */
  function ReadQuery(s: string): Option<seq<string>>
    decreases |s|
  {
    if s == "" then Some([])
    else if s[0] == ' ' then ReadQuery(s[1..])
    else if s[0] == '"' then
      var r := ReadString(s[1..]);
      if r.None? then None
      else
        var rest := ReadQuery(r.value.1);
        if rest.None? then None else Some([r.value.0] + rest.value)
    else None
  }

  lemma {:induction false} ReadDoubled(s: string, rest: string)
    requires rest == "" || rest[0] != '"'
    ensures ReadString(Doubled(s) + "\"" + rest) == Some((s, rest))
  {
    var text := Doubled(s) + "\"" + rest;
    if s == "" {
      assert text == "\"" + rest;
      assert text[1..] == rest;
    } else {
      ReadDoubled(s[1..], rest);
      var tail := Doubled(s[1..]) + "\"" + rest;
      if s[0] == '"' {
        assert text[2..] == tail;
        assert "\"" + s[1..] == s;
      } else {
        assert text[1..] == tail;
        assert [s[0]] + s[1..] == s;
      }
    }
  }

  /** What follows the first token. */
  function AfterFirst(tokens: seq<string>): string
    requires tokens != []
  {
    if |tokens| == 1 then "" else " " + JoinQuoted(tokens[1..])
  }

  lemma QuotedShape(d: string, rest: string)
    ensures ("\"" + d + "\"") + rest == "\"" + (d + "\"" + rest)
    ensures rest == "" ==> ("\"" + d + "\"") + rest == "\"" + d + "\""
  {
  }

  lemma JoinedShape(tokens: seq<string>)
    requires tokens != []
    ensures JoinQuoted(tokens) == "\"" + (Doubled(tokens[0]) + "\"" + AfterFirst(tokens))
  {
    if |tokens| > 1 {
      Seqs.Associates(Quoted(tokens[0]), " ", JoinQuoted(tokens[1..]));
    }
    QuotedShape(Doubled(tokens[0]), AfterFirst(tokens));
  }

  /** Reading what was quoted gives back the tokens. */
  lemma {:induction false} ReadJoined(tokens: seq<string>)
    ensures ReadQuery(JoinQuoted(tokens)) == Some(tokens)
    decreases |tokens|, 1
  {
    if tokens != [] {
      var text, rest := JoinQuoted(tokens), AfterFirst(tokens);
      JoinedShape(tokens);
      assert text[0] == '"' && text[1..] == Doubled(tokens[0]) + "\"" + rest;
      ReadDoubled(tokens[0], rest);
      ReadRest(tokens);
      assert [tokens[0]] + tokens[1..] == tokens;
    }
  }

  lemma {:induction false} ReadRest(tokens: seq<string>)
    requires tokens != []
    ensures ReadQuery(AfterFirst(tokens)) == Some(tokens[1..])
    decreases |tokens|, 0
  {
    if |tokens| > 1 {
      ReadJoined(tokens[1..]);
      assert AfterFirst(tokens)[1..] == JoinQuoted(tokens[1..]);
    } else {
      assert tokens[1..] == [];
    }
  }

  lemma {:induction false} JoinAppend(tokens: seq<string>, last: string)
    ensures JoinQuoted(tokens + [last])
            == if tokens == [] then Quoted(last) else JoinQuoted(tokens) + " " + Quoted(last)
  {
    if tokens == [] {
      assert tokens + [last] == [last];
    } else {
      JoinAppend(tokens[1..], last);
      var more := tokens + [last];
      assert more[1..] == tokens[1..] + [last] && more[0] == tokens[0];
      if |tokens| > 1 {
        Seqs.Associates(Quoted(tokens[0]) + " ", JoinQuoted(tokens[1..]), " " + Quoted(last));
        Seqs.Associates(JoinQuoted(tokens[1..]), " ", Quoted(last));
        Seqs.Associates(JoinQuoted(tokens), " ", Quoted(last));
      }
    }
  }

  /**
   The sanitised query reads as exactly the tokens into which the input splits at its spaces, in
   their order, whatever the input contains; it is empty exactly if the input is blank.
   */
  method SanitizeQuery(q: string) returns (query: string)
    ensures ReadQuery(query) == Some(Fields(q)) && SplitsInto(q, Fields(q))
    ensures forall tokens :: SplitsInto(q, tokens) ==> ReadQuery(query) == Some(tokens)
    ensures query == "" <==> AllSpaces(q)
  {
    var fields := Fields(q);
    var i := 0;
    query := "";
    while i < |fields|
      invariant 0 <= i <= |fields|
      invariant query == JoinQuoted(fields[..i])
    {
      JoinAppend(fields[..i], fields[i]);
      assert fields[..i + 1] == fields[..i] + [fields[i]];
      query := if i == 0 then Quoted(fields[i]) else query + " " + Quoted(fields[i]);
      i := i + 1;
    }
    assert fields[..i] == fields;
    ReadJoined(fields);
    FieldsSplitIt(q);
    forall tokens | SplitsInto(q, tokens) ensures tokens == fields {
      SplitIsFields(q, tokens);
    }
    assert AllSpaces(q) <==> SplitsInto(q, []);
  }
}
