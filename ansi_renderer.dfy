/** `LogLens.renderANSIColors` (content.js): two left-to-right global
    replacements over a markup string. The first turns each
    `ESC [ <digits and semicolons>+ m` into an opening styled span, or
    deletes it when none of its codes is recognised; the second turns each
    `ESC[0m` left in the result into `</span>`.

    The first replacement is modelled in two steps: `Scan` finds the
    matches of the regular expression left to right, with the characters
    between them, and `Emit` writes each match as the callback does. */
module AnsiRenderer {
  import opened Common

  /** Colours of codes 30-37 and of codes 90-97, by last digit: the
      16-entry table of the `LogLens` constructor. */
  const Standard: seq<string> := ["#000000", "#ff0000", "#00ff00", "#ffff00",
                                  "#0000ff", "#ff00ff", "#00ffff", "#ffffff"]
  const Bright: seq<string> := ["#555555", "#ff5555", "#55ff55", "#ffff55",
                                "#5555ff", "#ff55ff", "#55ffff", "#ffffff"]

  /** `this.ansiColors[code]`: defined for exactly the two-character codes
      `3x` and `9x` with `x` in 0..7. */
  function ColorOf(code: string): (r: Option<string>)
    ensures r.Some? <==> |code| == 2 && code[0] in {'3', '9'} && '0' <= code[1] <= '7'
  {
    if |code| == 2 && (code[0] == '3' || code[0] == '9') && '0' <= code[1] <= '7' then
      var i := code[1] as int - '0' as int;
      Some(if code[0] == '3' then Standard[i] else Bright[i])
    else None
  }

  const Reset: string := [Esc, '[', '0', 'm']
  const CloseTag: string := "</span>"

  /** The character class `[0-9;]`. */
  predicate IsCodeChar(c: char) {
    IsDigit(c) || c == ';'
  }

  /** Length of the longest prefix of `s` made of code characters. */
  function RunLength(s: string): (n: nat)
    ensures n <= |s|
    ensures forall i :: 0 <= i < n ==> IsCodeChar(s[i])
    ensures n < |s| ==> !IsCodeChar(s[n])
  {
    if |s| > 0 && IsCodeChar(s[0]) then 1 + RunLength(s[1..]) else 0
  }

  /** `s` begins with a whole escape sequence of length `k`:
      ESC, `[`, one or more code characters, `m`. */
  predicate IsSequence(s: string, k: nat) {
    4 <= k <= |s| && s[0] == Esc && s[1] == '[' && s[k - 1] == 'm'
    && forall i :: 2 <= i < k - 1 ==> IsCodeChar(s[i])
  }

  /** Length of the match of `\x1b\[([0-9;]+)m` at the start of `s`. The
      greedy run cannot give back characters to reach an `m`, since `m` is
      not a code character, so the match exists exactly when the longest
      run is non-empty and followed by `m`. */
  function SequenceLength(s: string): (r: Option<nat>)
    ensures r.Some? ==> IsSequence(s, r.value)
  {
    if |s| >= 2 && s[0] == Esc && s[1] == '[' then
      var n := RunLength(s[2..]);
      if n >= 1 && 2 + n < |s| && s[2 + n] == 'm' then Some(n + 3) else None
    else None
  }

  /** The longest run is determined by where the first non-code character
      stands. */
  lemma {:induction false} RunLengthExact(s: string, n: nat)
    requires n < |s| && !IsCodeChar(s[n])
    requires forall i :: 0 <= i < n ==> IsCodeChar(s[i])
    ensures RunLength(s) == n
  {
    if n > 0 {
      RunLengthExact(s[1..], n - 1);
    }
  }

  /** A whole sequence at the front of `s` is the one the regular
      expression matches. */
  lemma SequenceUnique(s: string, k: nat)
    requires IsSequence(s, k)
    ensures SequenceLength(s) == Some(k)
  {
    RunLengthExact(s[2..], k - 3);
  }

  /** The CSS declaration of one code, if the code is recognised. The colour
      table is consulted first, then 1, 4 and 7. */
  function StyleOf(code: string): (r: Option<string>)
    ensures r.Some? <==> ColorOf(code).Some? || code == "1" || code == "4" || code == "7"
    ensures ColorOf(code).Some? ==> r == Some("color: " + ColorOf(code).value)
  {
    if ColorOf(code).Some? then Some("color: " + ColorOf(code).value)
    else if code == "1" then Some("font-weight: bold")
    else if code == "4" then Some("text-decoration: underline")
    else if code == "7" then Some("background-color: #000; color: #fff")
    else None
  }

  /** The `styles` list built by the loop over `codeList`. */
  function Styles(codes: seq<string>): (styles: seq<string>)
    ensures |styles| <= |codes|
    ensures (forall c :: c in codes ==> StyleOf(c).None?) <==> styles == []
  {
    if |codes| == 0 then []
    else
      var rest := Styles(codes[1..]);
      assert forall c :: c in codes[1..] ==> c in codes;
      match StyleOf(codes[0])
      case Some(d) => [d] + rest
      case None => rest
  }

  /** What the callback returns for a match whose code text is `codeText`. */
  function Replacement(codeText: string): string {
    var styles := Styles(Split(codeText, ';'));
    if |styles| > 0 then "<span style=\"" + Join(styles, "; ") + "\">" else ""
  }

  /** A character the scan passes over, or a match with its code text. */
  datatype Token = Text(c: char) | Sequence(codes: string)

  /** The matches of `/\x1b\[([0-9;]+)m/g`, left to right, with the
      characters between them. */
  function Scan(s: string): seq<Token>
    decreases |s|
  {
    if |s| == 0 then []
    else match SequenceLength(s)
      case Some(k) => [Sequence(s[2..k - 1])] + Scan(s[k..])
      case None => [Text(s[0])] + Scan(s[1..])
  }

  function Emit(tokens: seq<Token>): string {
    if |tokens| == 0 then []
    else
      (match tokens[0]
       case Text(c) => [c]
       case Sequence(codes) => Replacement(codes))
      + Emit(tokens[1..])
  }

  /** First pass: `html.replace(/\x1b\[([0-9;]+)m/g, ...)`. */
  function ReplaceSequences(s: string): string {
    Emit(Scan(s))
  }

  /** Second pass: `.replace(/\x1b\[0m/g, '</span>')`. */
  function ReplaceResets(s: string): (r: string)
    decreases |s|
  {
    if |s| == 0 then []
    else if StartsWith(s, Reset) then CloseTag + ReplaceResets(s[4..])
    else [s[0]] + ReplaceResets(s[1..])
  }

  function RenderAnsiColors(html: string): string {
    ReplaceResets(ReplaceSequences(html))
  }

  // ---------------------------------------------------------------------
  // The code table and one sequence

  /** Codes `3d` and `9d` take the colour at index `d` of the standard and
      bright tables. */
  lemma ColorTableEntries()
    ensures forall d :: '0' <= d <= '7' ==>
      ColorOf(['3', d]) == Some(Standard[d as int - '0' as int])
      && ColorOf(['9', d]) == Some(Bright[d as int - '0' as int])
  {
  }

  /** No colour of the table holds an escape character. */
  lemma ColorsNoEsc()
    ensures forall i :: 0 <= i < 8 ==> Esc !in Standard[i] && Esc !in Bright[i]
  {
    assert Esc !in Standard[0] && Esc !in Standard[1] && Esc !in Standard[2] && Esc !in Standard[3];
    assert Esc !in Standard[4] && Esc !in Standard[5] && Esc !in Standard[6] && Esc !in Standard[7];
    assert Esc !in Bright[0] && Esc !in Bright[1] && Esc !in Bright[2] && Esc !in Bright[3];
    assert Esc !in Bright[4] && Esc !in Bright[5] && Esc !in Bright[6] && Esc !in Bright[7];
  }

  /** The other recognised codes give their declarations. */
  lemma StyleTable()
    ensures StyleOf("31") == Some("color: " + "#ff0000")
    ensures StyleOf("1") == Some("font-weight: bold")
    ensures StyleOf("4") == Some("text-decoration: underline")
    ensures StyleOf("7") == Some("background-color: #000; color: #fff")
  {
    assert "31"[0] == '3' && "31"[1] == '1';
    assert ColorOf("31") == Some(Standard[1]);
  }

  /** The reset, the empty code between two semicolons and the codes
      outside the table give no declaration. */
  lemma UnstyledCodes()
    ensures StyleOf("0") == None && StyleOf("") == None && StyleOf("99") == None
    ensures StyleOf("38") == None && StyleOf("39") == None && StyleOf("49") == None
  {
  }

  /** Declarations keep the order of their codes. */
  lemma {:induction false} StylesAppend(a: seq<string>, b: seq<string>)
    ensures Styles(a + b) == Styles(a) + Styles(b)
  {
    if |a| == 0 {
      assert a + b == b;
    } else {
      assert (a + b)[1..] == a[1..] + b;
      StylesAppend(a[1..], b);
    }
  }

  /** A sequence none of whose codes is recognised is replaced by nothing. */
  lemma UnrecognisedDeleted(codeText: string)
    requires forall c :: c in Split(codeText, ';') ==> StyleOf(c).None?
    ensures Replacement(codeText) == ""
  {
  }

  /** The reset `ESC[0m` is such a sequence: its code "0" is not in the
      table. */
  lemma ResetDeleted()
    ensures Replacement("0") == ""
    ensures Scan(Reset) == [Sequence("0")]
    ensures ReplaceSequences(Reset) == ""
  {
    SplitNoSep("0", ';');
    assert StyleOf("0") == None;
    assert IsSequence(Reset, 4);
    SequenceUnique(Reset, 4);
    assert Reset[2..3] == "0";
    assert Reset[4..] == [];
    assert Scan([]) == [];
    assert Emit([]) == [];
  }

  /** A sequence whose code text lists the codes `codes` opens a span with
      one declaration per recognised code, in code order, joined by "; ";
      when no code is recognised it is deleted. */
  lemma SequenceStyle(codes: seq<string>)
    requires |codes| >= 1 && forall c :: c in codes ==> ';' !in c
    ensures Styles(codes) != [] ==>
      Replacement(Join(codes, ";")) == "<span style=\"" + Join(Styles(codes), "; ") + "\">"
    ensures Styles(codes) == [] ==> Replacement(Join(codes, ";")) == ""
  {
    JoinSplit(codes, ';');
  }

  // ---------------------------------------------------------------------
  // The scan

  function Texts(p: string): (ts: seq<Token>)
    ensures |ts| == |p|
    ensures forall i :: 0 <= i < |p| ==> ts[i] == Text(p[i])
  {
    if |p| == 0 then [] else [Text(p[0])] + Texts(p[1..])
  }

  /** The scan passes over text without an escape character character by
      character. */
  lemma {:induction false} ScanPlain(p: string, q: string)
    requires Esc !in p
    ensures Scan(p + q) == Texts(p) + Scan(q)
  {
    if |p| == 0 {
      assert p + q == q;
    } else {
      var s := p + q;
      assert s[0] == p[0] && p[0] != Esc;
      assert SequenceLength(s).None?;
      assert s[1..] == p[1..] + q;
      ScanPlain(p[1..], q);
    }
  }

  /** A whole sequence at the front is one match, and the scan goes on
      right after it. */
  lemma SequenceShape(codeText: string, rest: string)
    requires |codeText| >= 1 && forall i :: 0 <= i < |codeText| ==> IsCodeChar(codeText[i])
    ensures var s := [Esc, '['] + codeText + ['m'] + rest;
      IsSequence(s, |codeText| + 3) && s[2..|codeText| + 2] == codeText
      && s[|codeText| + 3..] == rest
  {
    var s := [Esc, '['] + codeText + ['m'] + rest;
    assert forall i :: 2 <= i < |codeText| + 2 ==> s[i] == codeText[i - 2];
  }

  lemma ScanSequence(codeText: string, rest: string)
    requires |codeText| >= 1 && forall i :: 0 <= i < |codeText| ==> IsCodeChar(codeText[i])
    ensures Scan([Esc, '['] + codeText + ['m'] + rest) == [Sequence(codeText)] + Scan(rest)
  {
    var s := [Esc, '['] + codeText + ['m'] + rest;
    SequenceShape(codeText, rest);
    SequenceUnique(s, |codeText| + 3);
    ScanAt(s, |codeText| + 3);
  }

  /** The scan consumes a match at the front whole. */
  lemma ScanAt(s: string, k: nat)
    requires SequenceLength(s) == Some(k)
    ensures Scan(s) == [Sequence(s[2..k - 1])] + Scan(s[k..])
  {
  }

  lemma {:induction false} EmitAppend(a: seq<Token>, b: seq<Token>)
    ensures Emit(a + b) == Emit(a) + Emit(b)
  {
    if |a| == 0 {
      assert a + b == b;
    } else {
      assert (a + b)[0] == a[0];
      assert (a + b)[1..] == a[1..] + b;
      EmitAppend(a[1..], b);
    }
  }

  lemma {:induction false} EmitTexts(p: string)
    ensures Emit(Texts(p)) == p
  {
    if |p| > 0 {
      assert Texts(p)[1..] == Texts(p[1..]);
      EmitTexts(p[1..]);
    }
  }

  /** Characters outside escape sequences are kept, in order. */
  lemma PlainPrefix(p: string, q: string)
    requires Esc !in p
    ensures ReplaceSequences(p + q) == p + ReplaceSequences(q)
  {
    ScanPlain(p, q);
    EmitAppend(Texts(p), Scan(q));
    EmitTexts(p);
  }

  /** A whole sequence is replaced by the callback's result, and the rest
      is rendered after it. */
  lemma SequenceAtFront(codeText: string, rest: string)
    requires |codeText| >= 1 && forall i :: 0 <= i < |codeText| ==> IsCodeChar(codeText[i])
    ensures ReplaceSequences([Esc, '['] + codeText + ['m'] + rest)
         == Replacement(codeText) + ReplaceSequences(rest)
  {
    ScanSequence(codeText, rest);
    EmitAppend([Sequence(codeText)], Scan(rest));
  }

  /** Text without an escape character passes through the second pass. */
  lemma {:induction false} ResetsPlain(s: string)
    requires Esc !in s
    ensures ReplaceResets(s) == s
  {
    if |s| > 0 {
      assert s[0] != Esc;
      ResetsPlain(s[1..]);
    }
  }

  /** Markup without any escape character is returned unchanged. */
  lemma NoEscUnchanged(html: string)
    requires Esc !in html
    ensures RenderAnsiColors(html) == html
  {
    PlainOnly(html);
    ResetsPlain(html);
  }

  /** Every declaration comes from the code table. */
  lemma {:induction false} StylesDeclared(codes: seq<string>, d: string)
    requires d in Styles(codes)
    ensures exists c :: c in codes && StyleOf(c) == Some(d)
  {
    if |codes| > 0 {
      if StyleOf(codes[0]) == Some(d) {
        assert codes[0] in codes;
      } else {
        StylesDeclared(codes[1..], d);
        var c :| c in codes[1..] && StyleOf(c) == Some(d);
        assert c in codes;
      }
    }
  }

  lemma BoldUnderlineNoEsc()
    ensures Esc !in "color: " && Esc !in "font-weight: bold"
    ensures Esc !in "text-decoration: underline"
  {
  }

  lemma InverseNoEsc()
    ensures Esc !in "background-color: #000; color: #fff"
  {
  }

  lemma StyleNoEsc(code: string)
    ensures StyleOf(code).Some? ==> Esc !in StyleOf(code).value
  {
    BoldUnderlineNoEsc();
    InverseNoEsc();
    if ColorOf(code).Some? {
      ColorsNoEsc();
    }
  }

  lemma {:induction false} JoinNoEsc(parts: seq<string>, sep: string)
    requires Esc !in sep
    requires forall p :: p in parts ==> Esc !in p
    ensures Esc !in Join(parts, sep)
  {
    if |parts| > 1 {
      assert forall p :: p in parts[1..] ==> p in parts;
      JoinNoEsc(parts[1..], sep);
    }
  }

  lemma {:induction false} StylesNoEsc(codes: seq<string>)
    ensures forall d :: d in Styles(codes) ==> Esc !in d
  {
    if |codes| > 0 {
      StylesNoEsc(codes[1..]);
      StyleNoEsc(codes[0]);
    }
  }

  lemma SpanTextNoEsc()
    ensures Esc !in "<span style=\"" && Esc !in "\">"
  {
  }

  /** What replaces a sequence never holds an escape character. */
  lemma ReplacementNoEsc(codeText: string)
    ensures Esc !in Replacement(codeText)
  {
    var styles := Styles(Split(codeText, ';'));
    if |styles| > 0 {
      StylesNoEsc(Split(codeText, ';'));
      JoinNoEsc(styles, "; ");
      SpanTextNoEsc();
      var joined := Join(styles, "; ");
      assert Replacement(codeText) == "<span style=\"" + joined + "\">";
    }
  }

  /** Every escape character starts a whole sequence. */
  predicate WellFormedEscapes(s: string) {
    forall i :: 0 <= i < |s| && s[i] == Esc ==> SequenceLength(s[i..]).Some?
  }

  lemma WellFormedSuffix(s: string, k: nat)
    requires WellFormedEscapes(s) && k <= |s|
    ensures WellFormedEscapes(s[k..])
  {
    forall i | 0 <= i < |s[k..]| && s[k..][i] == Esc
      ensures SequenceLength(s[k..][i..]).Some?
    {
      assert s[k + i] == Esc;
      assert s[k..][i..] == s[k + i..];
    }
  }

  /** One step of the first pass: a sequence at the front is replaced. */
  lemma FirstPassSequence(s: string, k: nat)
    requires SequenceLength(s) == Some(k)
    ensures ReplaceSequences(s) == Replacement(s[2..k - 1]) + ReplaceSequences(s[k..])
  {
    var t := Sequence(s[2..k - 1]);
    ScanAt(s, k);
    EmitAppend([t], Scan(s[k..]));
    assert [t][1..] == [];
    assert Emit([t]) == Replacement(s[2..k - 1]) + Emit([]);
  }

  /** One step of the first pass: a character that starts no sequence is
      kept. */
  lemma FirstPassText(s: string)
    requires |s| > 0 && SequenceLength(s).None?
    ensures ReplaceSequences(s) == [s[0]] + ReplaceSequences(s[1..])
  {
    EmitAppend([Text(s[0])], Scan(s[1..]));
  }

  lemma NoEscConcat(a: string, b: string)
    requires Esc !in a && Esc !in b
    ensures Esc !in a + b
  {
  }

  lemma {:induction false} WellFormedConsumed(s: string)
    requires WellFormedEscapes(s)
    ensures Esc !in ReplaceSequences(s)
    decreases |s|
  {
    if |s| > 0 {
      var r := SequenceLength(s);
      if r.Some? {
        var k := r.value;
        FirstPassSequence(s, k);
        WellFormedSuffix(s, k);
        WellFormedConsumed(s[k..]);
        ReplacementNoEsc(s[2..k - 1]);
        NoEscConcat(Replacement(s[2..k - 1]), ReplaceSequences(s[k..]));
      } else {
        FirstPassText(s);
        assert s[0] != Esc by {
          assert s[0..] == s;
        }
        WellFormedSuffix(s, 1);
        WellFormedConsumed(s[1..]);
        NoEscConcat([s[0]], ReplaceSequences(s[1..]));
      }
    }
  }

  /** When every escape character of the input starts a whole sequence,
      the first pass consumes them all, so the second pass finds no
      `ESC[0m` and changes nothing: a reset in such an input is deleted and
      never becomes `</span>`. */
  lemma WellFormedNoClose(s: string)
    requires WellFormedEscapes(s)
    ensures Esc !in ReplaceSequences(s)
    ensures RenderAnsiColors(s) == ReplaceSequences(s)
  {
    WellFormedConsumed(s);
    ResetsPlain(ReplaceSequences(s));
  }

  /** A reset after a coloured run deletes itself instead of closing the
      span: the output is the opening span and the run, with the span left
      open. */
  lemma ResetDoesNotClose(codeText: string, run: string)
    requires |codeText| >= 1 && forall i :: 0 <= i < |codeText| ==> IsCodeChar(codeText[i])
    requires Esc !in run
    ensures RenderAnsiColors([Esc, '['] + codeText + ['m'] + run + Reset)
         == Replacement(codeText) + run
  {
    assert [Esc, '['] + codeText + ['m'] + run + Reset
        == [Esc, '['] + codeText + ['m'] + (run + Reset);
    SequenceAtFront(codeText, run + Reset);
    PlainPrefix(run, Reset);
    ResetDeleted();
    assert run + "" == run;
    ReplacementNoEsc(codeText);
    ResetsPlain(Replacement(codeText) + run);
  }

  lemma PlainOnly(p: string)
    requires Esc !in p
    ensures ReplaceSequences(p) == p
  {
    PlainPrefix(p, []);
    assert p + [] == p;
    assert Scan([]) == [];
  }

  /** A reset followed by more text is deleted. */
  lemma ResetThenText(rest: string)
    requires Esc !in rest
    ensures ReplaceSequences(Reset + rest) == rest
  {
    assert Reset + rest == [Esc, '['] + "0" + ['m'] + rest;
    SequenceAtFront("0", rest);
    ResetDeleted();
    PlainOnly(rest);
  }

  lemma SplicedTail()
    ensures ReplaceSequences("[0" + Reset + "m") == "[0m"
  {
    assert "[0" + Reset + "m" == "[0" + (Reset + "m");
    PlainPrefix("[0", Reset + "m");
    ResetThenText("m");
  }

  /** The first pass on `ESC [0 ESC[0m m`: the first escape character starts
      no whole sequence and is kept, the reset after it is deleted, and what
      remains is a new `ESC[0m`. */
  lemma SplicedFirstPass()
    ensures ReplaceSequences([Esc] + "[0" + Reset + "m") == Reset
  {
    var s := [Esc] + "[0" + Reset + "m";
    assert s[2] == '0' && s[3] == Esc;
    RunLengthExact(s[2..], 1);
    FirstPassText(s);
    assert s[1..] == "[0" + Reset + "m";
    SplicedTail();
  }

  /** A `</span>` appears only where a deletion splices the pieces of a new
      `ESC[0m` together, and this can happen without two adjacent escape
      characters. */
  lemma SplicedReset()
    ensures RenderAnsiColors([Esc] + "[0" + Reset + "m") == CloseTag
  {
    SplicedFirstPass();
    assert StartsWith(Reset, Reset);
    assert Reset[4..] == [];
    assert ReplaceResets(Reset) == CloseTag + ReplaceResets([]);
  }
}
