/** `LogLens.highlightErrors` (content.js): eight regular expressions,
    applied one after the other, each as a global replacement that wraps
    every match in `<span class="loglens-error">…</span>`.

    Every pattern is a literal lead, a lazy `.*?`, and a tail:
    - six patterns end in the lookahead `(?=<|$)`: the match stops right
      before the first `<` or at the end of the input;
    - `at .*?\.java:\d+\)` and `at .*?\.js:\d+:\d+\)` end in a stack-frame
      suffix. Its `\d+` runs are greedy and each is followed by a
      non-digit literal, so giving digits back never helps: the tail either
      matches at a position in exactly one way or not at all.
    The lazy `.*?` tries the tail at each position from the end of the lead
    onwards and stops at the first one where it matches; `.` cannot pass a
    line terminator. */
module ErrorHighlighter {
  import opened Common

  /** What follows the lazy `.*?`. */
  datatype Tail =
    | Boundary   // (?=<|$)
    | JavaFrame  // \.java:\d+\)
    | JsFrame    // \.js:\d+:\d+\)

  /** One pattern: its literal lead, whether it carries the `i` flag, and
      its tail. */
  datatype Pattern = Pattern(lead: string, ignoreCase: bool, tail: Tail)

  /** The patterns of `highlightErrors`, in the order they are applied.
      The last two leads are the characters the file holds at those places
      (U+201A U+00FA U+00F3 and U+201A U+00F9 U+00E5). */
  const ErrorPatterns: seq<Pattern> := [
    Pattern("[ERROR]", true, Boundary),
    Pattern("ERROR:", true, Boundary),
    Pattern("FAILED", true, Boundary),
    Pattern("Exception:", true, Boundary),
    Pattern("at ", false, JavaFrame),
    Pattern("at ", false, JsFrame),
    Pattern("\U{201A}\U{FA}\U{F3}", false, Boundary),
    Pattern("\U{201A}\U{F9}\U{E5}", false, Boundary)
  ]

  const Open: string := "<span class=\"loglens-error\">"
  const Close: string := "</span>"

  function Wrap(segment: string): (r: string)
    ensures |r| == |segment| + |Open| + |Close|
    ensures r[|Open|..|Open| + |segment|] == segment
  {
    Open + segment + Close
  }

  /** `s` begins with the lead, up to ASCII case when the pattern ignores
      case. */
  predicate LeadAt(p: Pattern, s: string) {
    if p.ignoreCase then StartsWithCi(s, p.lead) else StartsWith(s, p.lead)
  }

  /** `c` can be the first character of a match of `p`. */
  predicate CanStart(p: Pattern, c: char)
    requires |p.lead| >= 1
  {
    if p.ignoreCase then Lower(c) == Lower(p.lead[0]) else c == p.lead[0]
  }

  /** Length of the longest prefix of `s` made of decimal digits. */
  function DigitRun(s: string): (n: nat)
    ensures n <= |s|
  {
    if |s| > 0 && IsDigit(s[0]) then 1 + DigitRun(s[1..]) else 0
  }

  /** The run found is all digits and stops at a non-digit or the end. */
  lemma {:induction false} DigitRunLongest(s: string)
    ensures forall i :: 0 <= i < DigitRun(s) ==> IsDigit(s[i])
    ensures DigitRun(s) < |s| ==> !IsDigit(s[DigitRun(s)])
  {
    if |s| > 0 && IsDigit(s[0]) {
      DigitRunLongest(s[1..]);
    }
  }

  /** `\d+` followed by the literal `c` at the start of `s`: the length
      of both together. */
  function DigitsThen(s: string, c: char): (r: Option<nat>)
    ensures r.Some? ==> 2 <= r.value <= |s| && s[r.value - 1] == c
  {
    var n := DigitRun(s);
    if n >= 1 && n < |s| && s[n] == c then Some(n + 1) else None
  }

  /** Length of the tail matched at the start of `s`, if it matches there. */
  function TailLength(t: Tail, s: string): (r: Option<nat>)
    ensures r.Some? ==> r.value <= |s|
    ensures t == Boundary ==> (r.Some? <==> |s| == 0 || s[0] == '<')
    ensures t == Boundary && r.Some? ==> r.value == 0
  {
    match t
    case Boundary => if |s| == 0 || s[0] == '<' then Some(0) else None
    case JavaFrame =>
      if StartsWith(s, ".java:") then
        match DigitsThen(s[6..], ')')
        case Some(n) => Some(6 + n)
        case None => None
      else None
    case JsFrame =>
      if StartsWith(s, ".js:") then
        match DigitsThen(s[4..], ':')
        case Some(n) =>
          (match DigitsThen(s[4 + n..], ')')
           case Some(n') => Some(4 + n + n')
           case None => None)
        case None => None
      else None
  }

  /** No line terminator in `s[from..to]`. */
  predicate OnOneLine(s: string, from: nat, to: nat)
    requires from <= to <= |s|
  {
    forall i :: from <= i < to ==> !IsLineTerminator(s[i])
  }

  /** The tail matches at position `k` of `s`. */
  predicate TailAt(t: Tail, s: string, k: nat)
    requires k <= |s|
  {
    TailLength(t, s[k..]).Some?
  }

  /** The lazy `.*?` started at `m`: the first position from `m` on where
      the tail matches, if it is reached before a line terminator. */
  function TailStart(t: Tail, s: string, m: nat): (r: Option<nat>)
    requires m <= |s|
    ensures r.Some? ==> m <= r.value <= |s| && TailLength(t, s[r.value..]).Some?
    decreases |s| - m
  {
    if TailAt(t, s, m) then Some(m)
    else if m == |s| || IsLineTerminator(s[m]) then None
    else TailStart(t, s, m + 1)
  }

  /** The lazy scan finds the nearest position, on the same line, where the
      tail matches, and finds nothing exactly when there is no such
      position. */
  lemma TailStartFirst(t: Tail, s: string, m: nat)
    requires m <= |s|
    ensures var r := TailStart(t, s, m);
      r.Some? ==>
        OnOneLine(s, m, r.value) && TailLength(t, s[r.value..]).Some?
        && forall k :: m <= k < r.value ==> !TailAt(t, s, k)
    ensures TailStart(t, s, m).None? ==>
      forall k :: m <= k <= |s| && OnOneLine(s, m, k) ==> !TailAt(t, s, k)
  {
    TailStartFound(t, s, m);
    TailStartMissing(t, s, m);
  }

  lemma TailStartFound(t: Tail, s: string, m: nat)
    requires m <= |s|
    ensures TailStart(t, s, m).Some? ==> OnOneLine(s, m, TailStart(t, s, m).value)
    ensures TailStart(t, s, m).Some? ==>
      forall k :: m <= k < TailStart(t, s, m).value ==> !TailAt(t, s, k)
  {
    TailStartOnLine(t, s, m);
    TailStartNearest(t, s, m);
  }

  /** The stop found lies on the line the scan started on. */
  lemma {:induction false} TailStartOnLine(t: Tail, s: string, m: nat)
    requires m <= |s|
    ensures TailStart(t, s, m).Some? ==> OnOneLine(s, m, TailStart(t, s, m).value)
    decreases |s| - m
  {
    if !TailAt(t, s, m) && m < |s| && !IsLineTerminator(s[m]) {
      TailStartOnLine(t, s, m + 1);
      var r := TailStart(t, s, m + 1);
      assert TailStart(t, s, m) == r;
      if r.Some? {
        forall i | m <= i < r.value
          ensures !IsLineTerminator(s[i])
        {
          if i > m {
            assert OnOneLine(s, m + 1, r.value);
          }
        }
      }
    }
  }

  /** The tail matches at no position before the stop found. */
  lemma {:induction false} TailStartNearest(t: Tail, s: string, m: nat)
    requires m <= |s|
    ensures TailStart(t, s, m).Some? ==>
      forall k :: m <= k < TailStart(t, s, m).value ==> !TailAt(t, s, k)
    decreases |s| - m
  {
    if !TailAt(t, s, m) && m < |s| && !IsLineTerminator(s[m]) {
      TailStartNearest(t, s, m + 1);
      var r := TailStart(t, s, m + 1);
      assert TailStart(t, s, m) == r;
    }
  }

  lemma {:induction false} TailStartMissing(t: Tail, s: string, m: nat)
    requires m <= |s|
    ensures TailStart(t, s, m).None? ==>
      forall k :: m <= k <= |s| && OnOneLine(s, m, k) ==> !TailAt(t, s, k)
    decreases |s| - m
  {
    if !TailAt(t, s, m) && m < |s| && !IsLineTerminator(s[m]) {
      TailStartMissing(t, s, m + 1);
      if TailStart(t, s, m).None? {
        forall k | m <= k <= |s| && OnOneLine(s, m, k)
          ensures !TailAt(t, s, k)
        {
          if k > m {
            assert OnOneLine(s, m + 1, k);
          }
        }
      }
    }
  }

  /** `s[from..to]` is a non-empty run of decimal digits. */
  predicate DigitSpan(s: string, from: nat, to: nat) {
    from < to <= |s| && forall i :: from <= i < to ==> IsDigit(s[i])
  }

  /** `s` begins `.js:`, digits, then the `:` at `colon`, then digits and a
      `)` that is character `n - 1`. */
  predicate JsShape(s: string, colon: nat, n: nat) {
    colon + 2 < n <= |s| && StartsWith(s, ".js:") && DigitSpan(s, 4, colon)
    && s[colon] == ':' && DigitSpan(s, colon + 1, n - 1) && s[n - 1] == ')'
  }

  /** The text a tail matches, written out: nothing before `<` or the end;
      `.java:`, digits and `)`; `.js:`, digits, `:`, digits and `)`. `n` is
      the length matched. */
  predicate TailShape(t: Tail, s: string, n: nat) {
    match t
    case Boundary => n == 0 && (|s| == 0 || s[0] == '<')
    case JavaFrame =>
      8 <= n <= |s| && StartsWith(s, ".java:") && DigitSpan(s, 6, n - 1) && s[n - 1] == ')'
    case JsFrame => exists colon :: 4 < colon < n && JsShape(s, colon, n)
  }

  /** The greedy `\d+` before a non-digit literal `c` at `from` ends at `to`
      exactly when `s[from..to]` is digits and `s[to]` is `c`. */
  lemma {:induction false} DigitsThenAt(s: string, from: nat, c: char, to: nat)
    requires from <= to < |s| && !IsDigit(c)
    ensures DigitsThen(s[from..], c) == Some(to + 1 - from)
        <==> DigitSpan(s, from, to) && s[to] == c
  {
    var t := s[from..];
    DigitRunLongest(t);
    if DigitSpan(s, from, to) && s[to] == c {
      DigitRunExact(t, to - from);
    }
    if DigitsThen(t, c) == Some(to + 1 - from) {
      assert forall i :: from <= i < to ==> s[i] == t[i - from];
    }
  }

  lemma {:induction false} DigitRunExact(s: string, d: nat)
    requires d < |s| && !IsDigit(s[d]) && forall i :: 0 <= i < d ==> IsDigit(s[i])
    ensures DigitRun(s) == d
  {
    if d > 0 {
      DigitRunExact(s[1..], d - 1);
    }
  }

  /** A tail matches with length `n` exactly when the text has the tail's
      shape: the regular expression's greedy digit runs never need to give
      a digit back. */
  lemma TailLengthShape(t: Tail, s: string, n: nat)
    ensures TailLength(t, s) == Some(n) <==> TailShape(t, s, n)
  {
    match t
    case Boundary =>
    case JavaFrame => JavaShape(s, n);
    case JsFrame =>
      if TailLength(t, s) == Some(n) {
        JsShapeOf(s, n);
      }
      if TailShape(t, s, n) {
        var colon :| JsShape(s, colon, n);
        JsShapeMatches(s, colon, n);
      }
  }

  lemma JavaShape(s: string, n: nat)
    ensures TailLength(JavaFrame, s) == Some(n) <==> TailShape(JavaFrame, s, n)
  {
    if StartsWith(s, ".java:") && 7 <= n <= |s| {
      DigitsThenAt(s, 6, ')', n - 1);
    }
  }

  lemma JsShapeOf(s: string, n: nat)
    requires TailLength(JsFrame, s) == Some(n)
    ensures exists colon :: 4 < colon < n && JsShape(s, colon, n)
  {
    JsTailParts(s, n);
    var a := DigitsThen(s[4..], ':').value;
    var colon := 3 + a;
    DigitsThenAt(s, 4, ':', colon);
    DigitsThenAt(s, colon + 1, ')', n - 1);
    assert JsShape(s, colon, n);
  }

  lemma JsShapeMatches(s: string, colon: nat, n: nat)
    requires JsShape(s, colon, n)
    ensures TailLength(JsFrame, s) == Some(n)
  {
    DigitsThenAt(s, 4, ':', colon);
    DigitsThenAt(s, colon + 1, ')', n - 1);
    JsTail(s, colon - 3, n - 1 - colon);
  }

  /** The two digit runs of a JavaScript frame tail. */
  lemma JsTailParts(s: string, n: nat)
    requires TailLength(JsFrame, s) == Some(n)
    ensures StartsWith(s, ".js:") && DigitsThen(s[4..], ':').Some?
    ensures var a := DigitsThen(s[4..], ':').value;
      4 + a < n <= |s| && DigitsThen(s[4 + a..], ')') == Some(n - 4 - a)
  {
  }

  /** The JavaScript frame tail, from its two digit runs. */
  lemma JsTail(s: string, a: nat, b: nat)
    requires StartsWith(s, ".js:") && 4 + a <= |s|
    requires DigitsThen(s[4..], ':') == Some(a) && DigitsThen(s[4 + a..], ')') == Some(b)
    ensures TailLength(JsFrame, s) == Some(4 + a + b)
  {
  }

  /** End of the match of `p` at the start of `s`, if one starts there. */
  function MatchEnd(p: Pattern, s: string): (r: Option<nat>)
    ensures r.Some? ==> LeadAt(p, s) && |p.lead| <= r.value <= |s|
  {
    if LeadAt(p, s) then
      match TailStart(p.tail, s, |p.lead|)
      case Some(m) => Some(m + TailLength(p.tail, s[m..]).value)
      case None => None
    else None
  }

  /** `html.replace(pattern, match => Wrap(match))`: the scan tries a match
      at each position, wraps it and resumes after it. */
  function HighlightWith(p: Pattern, s: string): string
    requires |p.lead| >= 1
    decreases |s|
  {
    if |s| == 0 then []
    else match MatchEnd(p, s)
      case Some(e) => Wrap(s[..e]) + HighlightWith(p, s[e..])
      case None => [s[0]] + HighlightWith(p, s[1..])
  }

  /** `errorPatterns.forEach(...)`: each pattern runs over the result of the
      ones before it. */
  function HighlightAll(patterns: seq<Pattern>, html: string): string
    requires forall p :: p in patterns ==> |p.lead| >= 1
  {
    if |patterns| == 0 then html
    else HighlightAll(patterns[1..], HighlightWith(patterns[0], html))
  }

  function HighlightErrors(html: string): string {
    HighlightAll(ErrorPatterns, html)
  }

  // ---------------------------------------------------------------------
  // The keyword-to-boundary patterns

  /** No `<` and no line terminator in `s[from..to]`. */
  predicate Clean(s: string, from: nat, to: nat)
    requires from <= to <= |s|
  {
    forall i :: from <= i < to ==> s[i] != '<' && !IsLineTerminator(s[i])
  }

  /** With the boundary tail, the lazy scan from `m` stops at `k` exactly
      when nothing between is a `<` or a line terminator and `k` is a `<`
      or the end of the input. */
  lemma BoundaryStop(s: string, m: nat, k: nat)
    requires m <= k <= |s|
    ensures TailStart(Boundary, s, m) == Some(k)
        <==> Clean(s, m, k) && (k == |s| || s[k] == '<')
  {
    TailStartFirst(Boundary, s, m);
    var r := TailStart(Boundary, s, m);
    if Clean(s, m, k) && (k == |s| || s[k] == '<') {
      assert TailAt(Boundary, s, k);
      assert OnOneLine(s, m, k);
    }
    if r == Some(k) {
      forall i | m <= i < k ensures s[i] != '<' {
        assert !TailAt(Boundary, s, i);
      }
      assert TailLength(Boundary, s[k..]).Some?;
    }
  }

  /** A line that reaches a line terminator before any `<` stops the scan:
      the boundary tail is never found. */
  lemma TerminatorBlocks(s: string, m: nat, k: nat)
    requires m <= k < |s| && IsLineTerminator(s[k])
    requires forall i :: m <= i < k ==> s[i] != '<'
    ensures TailStart(Boundary, s, m) == None
  {
    TailStartFirst(Boundary, s, m);
  }

  /** A keyword-to-boundary match is the lead, followed by text without
      `<` or line terminator, ending right before a `<` or at the end. */
  lemma BoundaryMatch(p: Pattern, s: string, e: nat)
    requires p.tail == Boundary
    ensures MatchEnd(p, s) == Some(e)
        <==> LeadAt(p, s) && |p.lead| <= e <= |s| && Clean(s, |p.lead|, e)
             && (e == |s| || s[e] == '<')
  {
    if LeadAt(p, s) && |p.lead| <= e <= |s| {
      BoundaryStop(s, |p.lead|, e);
    }
  }

  /** A keyword whose line ends before any `<` and before the end of the
      input is not wrapped: the scan keeps its first character and moves
      on. */
  lemma NotWrappedAcrossLine(p: Pattern, s: string, k: nat)
    requires p.tail == Boundary && |p.lead| >= 1
    requires |p.lead| <= k < |s| && IsLineTerminator(s[k])
    requires forall i :: |p.lead| <= i < k ==> s[i] != '<'
    ensures HighlightWith(p, s) == [s[0]] + HighlightWith(p, s[1..])
  {
    TerminatorBlocks(s, |p.lead|, k);
  }

  /** A segment that starts with the keyword and runs, without `<` or line
      terminator, up to a `<` or the end is wrapped whole, and the scan
      resumes right after it. */
  lemma WrapsSegment(p: Pattern, segment: string, rest: string)
    requires p.tail == Boundary && |p.lead| >= 1
    requires LeadAt(p, segment) && Clean(segment, |p.lead|, |segment|)
    requires |rest| == 0 || rest[0] == '<'
    ensures HighlightWith(p, segment + rest) == Wrap(segment) + HighlightWith(p, rest)
  {
    var s := segment + rest;
    assert LeadAt(p, s) by {
      assert forall i :: 0 <= i < |p.lead| ==> s[i] == segment[i];
    }
    assert Clean(s, |p.lead|, |segment|) by {
      assert forall i :: |p.lead| <= i < |segment| ==> s[i] == segment[i];
    }
    assert |segment| == |s| || s[|segment|] == '<';
    BoundaryMatch(p, s, |segment|);
    assert s[..|segment|] == segment;
    assert s[|segment|..] == rest;
  }

  // ---------------------------------------------------------------------
  // The stack-frame patterns

  /** A stack-frame match runs on one line from the lead to the nearest
      `.java:` (or `.js:`) that begins a whole frame suffix, and ends with
      its `)`. */
  lemma FrameMatch(p: Pattern, s: string)
    requires p.tail != Boundary && MatchEnd(p, s).Some?
    ensures TailStart(p.tail, s, |p.lead|).Some?
    ensures var m := TailStart(p.tail, s, |p.lead|).value;
      OnOneLine(s, |p.lead|, m) && FrameSpan(p.tail, s, m, MatchEnd(p, s).value)
      && forall k :: |p.lead| <= k < m ==> !TailAt(p.tail, s, k)
  {
    FrameMatchEnd(p, s);
    FrameMatchNearest(p, s);
  }

  lemma FrameMatchEnd(p: Pattern, s: string)
    requires p.tail != Boundary && MatchEnd(p, s).Some?
    ensures TailStart(p.tail, s, |p.lead|).Some?
    ensures FrameSpan(p.tail, s, TailStart(p.tail, s, |p.lead|).value, MatchEnd(p, s).value)
  {
    MatchEndAt(p, s);
    var m := TailStart(p.tail, s, |p.lead|).value;
    FrameTail(p.tail, s, m, MatchEnd(p, s).value);
  }

  lemma FrameMatchNearest(p: Pattern, s: string)
    requires MatchEnd(p, s).Some?
    ensures |p.lead| <= |s| && TailStart(p.tail, s, |p.lead|).Some?
    ensures var m := TailStart(p.tail, s, |p.lead|).value;
      OnOneLine(s, |p.lead|, m)
      && forall k :: |p.lead| <= k < m ==> !TailAt(p.tail, s, k)
  {
    MatchEndAt(p, s);
    TailStartFirst(p.tail, s, |p.lead|);
  }

  /** A match ends where the tail found by the lazy scan ends. */
  lemma MatchEndAt(p: Pattern, s: string)
    requires MatchEnd(p, s).Some?
    ensures |p.lead| <= |s| && TailStart(p.tail, s, |p.lead|).Some?
    ensures var m := TailStart(p.tail, s, |p.lead|).value;
      TailLength(p.tail, s[m..]).Some?
      && MatchEnd(p, s).value == m + TailLength(p.tail, s[m..]).value
  {
  }

  /** A stack-frame tail spans `s[m..e]`: `.java:`, digits and `)`, or
      `.js:`, digits, `:`, digits and `)`. */
  predicate FrameSpan(t: Tail, s: string, m: nat, e: nat) {
    m < e <= |s| && TailShape(t, s[m..], e - m)
  }

  /** A frame tail at `m` that ends at `e` spans `s[m..e]`. */
  lemma FrameTail(t: Tail, s: string, m: nat, e: nat)
    requires t != Boundary && m <= |s| && TailLength(t, s[m..]).Some?
    requires e == m + TailLength(t, s[m..]).value
    ensures FrameSpan(t, s, m, e)
  {
    TailLengthShape(t, s[m..], e - m);
  }

  // ---------------------------------------------------------------------
  // Text the patterns do not touch

  /** A character that cannot start a match is copied. */
  lemma KeepsFirst(p: Pattern, prefix: string, rest: string)
    requires |p.lead| >= 1 && |prefix| > 0 && !CanStart(p, prefix[0])
    ensures HighlightWith(p, prefix + rest)
         == [prefix[0]] + HighlightWith(p, prefix[1..] + rest)
  {
    var s := prefix + rest;
    assert s[0] == prefix[0] && s[1..] == prefix[1..] + rest;
    assert !LeadAt(p, s);
  }

  /** Characters that cannot start a match are copied, in order. */
  lemma {:induction false} SkipPrefix(p: Pattern, prefix: string, rest: string)
    requires |p.lead| >= 1
    requires forall c :: c in prefix ==> !CanStart(p, c)
    ensures HighlightWith(p, prefix + rest) == prefix + HighlightWith(p, rest)
  {
    if |prefix| == 0 {
      assert prefix + rest == rest;
    } else {
      assert prefix[0] in prefix;
      KeepsFirst(p, prefix, rest);
      assert forall c :: c in prefix[1..] ==> c in prefix;
      SkipPrefix(p, prefix[1..], rest);
      ConsAppend(prefix, HighlightWith(p, rest));
    }
  }

  /** Where no match starts at any position, the markup is unchanged. */
  lemma {:induction false} NoMatchUnchanged(p: Pattern, s: string)
    requires |p.lead| >= 1
    requires forall i :: 0 <= i < |s| ==> MatchEnd(p, s[i..]).None?
    ensures HighlightWith(p, s) == s
  {
    if |s| > 0 {
      assert s[0..] == s;
      forall i | 0 <= i < |s[1..]| ensures MatchEnd(p, s[1..][i..]).None? {
        assert s[1..][i..] == s[i + 1..];
      }
      NoMatchUnchanged(p, s[1..]);
    }
  }

  /** Patterns none of which matches anywhere leave the markup unchanged. */
  lemma {:induction false} NoPatternUnchanged(patterns: seq<Pattern>, s: string)
    requires forall p :: p in patterns ==> |p.lead| >= 1
    requires forall p, i :: p in patterns && 0 <= i < |s| ==> MatchEnd(p, s[i..]).None?
    ensures HighlightAll(patterns, s) == s
  {
    if |patterns| > 0 {
      assert patterns[0] in patterns;
      NoMatchUnchanged(patterns[0], s);
      assert forall p :: p in patterns[1..] ==> p in patterns;
      NoPatternUnchanged(patterns[1..], s);
    }
  }

  /** Characters that can start a match of some error pattern: `[`, `e`,
      `f` in either case, `a`, and U+201A. */
  predicate IsLeadChar(c: char) {
    c == '[' || Lower(c) == 'e' || Lower(c) == 'f' || c == 'a' || c == '\U{201A}'
  }

  lemma LeadChars()
    ensures forall j :: 0 <= j < |ErrorPatterns| ==>
      |ErrorPatterns[j].lead| >= 1
      && forall c :: CanStart(ErrorPatterns[j], c) ==> IsLeadChar(c)
  {
  }

  lemma {:induction false} SkipAll(patterns: seq<Pattern>, s: string)
    requires forall j :: 0 <= j < |patterns| ==>
      |patterns[j].lead| >= 1 && forall c :: CanStart(patterns[j], c) ==> IsLeadChar(c)
    requires forall c :: c in s ==> !IsLeadChar(c)
    ensures HighlightAll(patterns, s) == s
  {
    if |patterns| > 0 {
      SkipPrefix(patterns[0], s, []);
      assert s + [] == s;
      SkipAll(patterns[1..], s);
    }
  }

  /** Markup holding none of the characters that start an error pattern is
      returned unchanged. */
  lemma NoLeadCharUnchanged(html: string)
    requires forall c :: c in html ==> !IsLeadChar(c)
    ensures HighlightErrors(html) == html
  {
    LeadChars();
    SkipAll(ErrorPatterns, html);
  }
}
