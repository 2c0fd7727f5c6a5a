/** The query handling of `LogLens.performSearch` (content.js): a query that
    is blank after trimming performs no search; any other query is escaped
    so that it matches literally and wrapped in one capturing group. */
module LogSearch {
  import opened Common

  /** The characters of the class `[.*+?^${}()|[\]\\]`. */
  predicate IsRegexSpecial(c: char) {
    c == '.' || c == '*' || c == '+' || c == '?' || c == '^' || c == '$'
    || c == '{' || c == '}' || c == '(' || c == ')' || c == '|'
    || c == '[' || c == ']' || c == '\\'
  }

  /** What `String.prototype.trim` removes: white space (tab, vertical
      tab, form feed, space, no-break space, the byte order mark and the
      other space separators) and line terminators. */
  predicate IsTrimmed(c: char) {
    c == '\t' || c == '\U{B}' || c == '\U{C}' || c == ' ' || c == '\U{A0}'
    || c == '\U{FEFF}' || c == '\U{1680}' || '\U{2000}' <= c <= '\U{200A}'
    || c == '\U{202F}' || c == '\U{205F}' || c == '\U{3000}'
    || IsLineTerminator(c)
  }

  /** `query.replace(/[.*+?^${}()|[\]\\]/g, '\\$&')`. */
  function EscapeQuery(query: string): (r: string)
    ensures |r| >= |query|
  {
    if |query| == 0 then []
    else (if IsRegexSpecial(query[0]) then ['\\', query[0]] else [query[0]])
         + EscapeQuery(query[1..])
  }

  /** `!query.trim()`: the trimmed query is empty exactly when every
      character of the query is trimmed. */
  predicate Blank(query: string) {
    forall i :: 0 <= i < |query| ==> IsTrimmed(query[i])
  }

  /** The source of the search expression, or `None` when `performSearch`
      returns early. The query is escaped as typed, untrimmed. */
  function SearchPattern(query: string): (r: Option<string>)
    ensures r.None? <==> Blank(query)
    ensures r.Some? ==> |r.value| >= |query| + 2 && r.value[0] == '('
                        && r.value[|r.value| - 1] == ')'
  {
    if Blank(query) then None else Some("(" + EscapeQuery(query) + ")")
  }

  /** Reads a regular-expression source that may hold only literal
      characters and escaped special characters, giving the literal text
      it stands for; `None` if it holds anything else. The search uses the
      flag `i`, so that text is then matched up to ASCII case. */
  function ParseLiteral(source: string): (r: Option<string>)
  {
    if |source| == 0 then Some([])
    else if source[0] == '\\' then
      if |source| >= 2 && IsRegexSpecial(source[1]) then
        match ParseLiteral(source[2..])
        case Some(rest) => Some([source[1]] + rest)
        case None => None
      else None
    else if IsRegexSpecial(source[0]) then None
    else
      match ParseLiteral(source[1..])
      case Some(rest) => Some([source[0]] + rest)
      case None => None
  }

  // ---------------------------------------------------------------------

  /** The escaped query is a literal pattern for exactly the query. */
  lemma {:induction false} EscapeParses(query: string)
    ensures ParseLiteral(EscapeQuery(query)) == Some(query)
  {
    if |query| > 0 {
      EscapeParses(query[1..]);
      var e := EscapeQuery(query);
      if IsRegexSpecial(query[0]) {
        assert e[2..] == EscapeQuery(query[1..]);
      } else {
        assert e[1..] == EscapeQuery(query[1..]);
      }
      assert [query[0]] + query[1..] == query;
    }
  }

  /** Escaping is the only way to write a literal pattern: a source that
      parses to `text` is the escaped `text`. */
  lemma {:induction false} ParseEscapes(source: string, text: string)
    requires ParseLiteral(source) == Some(text)
    ensures EscapeQuery(text) == source
  {
    if |source| > 0 {
      if source[0] == '\\' {
        var rest := ParseLiteral(source[2..]).value;
        ParseEscapes(source[2..], rest);
        assert text == [source[1]] + rest;
        assert text[1..] == rest;
        assert source == ['\\', source[1]] + source[2..];
      } else {
        var rest := ParseLiteral(source[1..]).value;
        ParseEscapes(source[1..], rest);
        assert text == [source[0]] + rest;
        assert text[1..] == rest;
        assert source == [source[0]] + source[1..];
      }
    }
  }

  /** Each special character gains one backslash; nothing else changes. */
  lemma {:induction false} EscapeLength(query: string)
    ensures |EscapeQuery(query)| == |query| + CountSpecial(query)
  {
    if |query| > 0 {
      EscapeLength(query[1..]);
    }
  }

  function CountSpecial(s: string): (n: nat)
    ensures n <= |s|
  {
    if |s| == 0 then 0 else (if IsRegexSpecial(s[0]) then 1 else 0) + CountSpecial(s[1..])
  }

  /** A query without special characters is used as typed. */
  lemma {:induction false} PlainQueryUnchanged(query: string)
    requires forall i :: 0 <= i < |query| ==> !IsRegexSpecial(query[i])
    ensures EscapeQuery(query) == query
  {
    if |query| > 0 {
      PlainQueryUnchanged(query[1..]);
      assert [query[0]] + query[1..] == query;
    }
  }

  /** The search expression is one group whose body is a literal pattern
      for the query as typed: every special character is escaped. */
  lemma SearchIsLiteral(query: string)
    requires !Blank(query)
    ensures var source := SearchPattern(query).value;
      ParseLiteral(source[1..|source| - 1]) == Some(query)
  {
    var source := SearchPattern(query).value;
    assert source[1..|source| - 1] == EscapeQuery(query);
    EscapeParses(query);
  }
}
