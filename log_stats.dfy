/** `LogLens.updateStats` (content.js): the three numbers shown in the
    controls bar, computed from the text of a log container. */
module LogStats {
  import opened Common

  /** The alternatives of `/ERROR|FAILED|Exception/gi`, in order. */
  const ErrorWords: seq<string> := ["ERROR", "FAILED", "Exception"]
  const WarnWords: seq<string> := ["WARN"]

  predicate NonEmptyWords(words: seq<string>) {
    forall w :: w in words ==> |w| >= 1
  }

  /** Length of the first alternative that matches, ignoring ASCII case,
      at the start of `s`. */
  function AltMatch(words: seq<string>, s: string): (r: Option<nat>)
    requires NonEmptyWords(words)
    ensures r.Some? ==> 1 <= r.value <= |s|
  {
    if |words| == 0 then None
    else if StartsWithCi(s, words[0]) then
      assert words[0] in words;
      Some(|words[0]|)
    else
      assert forall w :: w in words[1..] ==> w in words;
      AltMatch(words[1..], s)
  }

  /** The alternation matches exactly when one of its words does. */
  lemma {:induction false} AltMatchSome(words: seq<string>, s: string)
    requires NonEmptyWords(words)
    ensures AltMatch(words, s).Some? <==> exists w :: w in words && StartsWithCi(s, w)
  {
    if |words| > 0 {
      assert words[0] in words;
      assert forall w :: w in words[1..] ==> w in words;
      assert forall w :: w in words && w != words[0] ==> w in words[1..];
      AltMatchSome(words[1..], s);
    }
  }

  /** `(text.match(/…/gi) || []).length`: the number of matches found by a
      left-to-right scan that resumes after each match. */
  function CountMatches(words: seq<string>, s: string): (n: nat)
    requires NonEmptyWords(words)
    decreases |s|
  {
    if |s| == 0 then 0
    else match AltMatch(words, s)
      case Some(k) => 1 + CountMatches(words, s[k..])
      case None => CountMatches(words, s[1..])
  }

  datatype Stats = Stats(lines: nat, errors: nat, warnings: nat)

  function StatsOf(text: string): Stats {
    Stats(|Split(text, '\n')|, CountMatches(ErrorWords, text), CountMatches(WarnWords, text))
  }

  // ---------------------------------------------------------------------
  // Lines

  /** The line count is the number of newlines plus one: empty text is one
      line, and a trailing newline adds an empty last line. */
  lemma LineCount(text: string)
    ensures StatsOf(text).lines == CountChar(text, '\n') + 1
    ensures StatsOf(text + "\n").lines == StatsOf(text).lines + 1
  {
    SplitCount(text, '\n');
    SplitCount(text + "\n", '\n');
    CountCharAppend(text, "\n", '\n');
  }

  // ---------------------------------------------------------------------
  // Counting words

  lemma MulStep(c: nat, k: nat, rest: nat)
    requires c * k <= rest
    ensures (1 + c) * k <= rest + k
  {
  }

  /** A match of a single word takes `|w|` characters, so there are at most
      `|s| / |w|` of them. */
  lemma {:induction false} CountBound(w: string, s: string)
    requires |w| >= 1
    ensures CountMatches([w], s) * |w| <= |s|
    decreases |s|
  {
    if |s| > 0 {
      AltSingle(w, s);
      if StartsWithCi(s, w) {
        CountBound(w, s[|w|..]);
        MulStep(CountMatches([w], s[|w|..]), |w|, |s| - |w|);
      } else {
        CountBound(w, s[1..]);
      }
    }
  }

  /** Positions where no alternative starts are passed over. */
  lemma {:induction false} SkipNoStart(words: seq<string>, s: string, k: nat)
    requires NonEmptyWords(words) && k <= |s|
    requires forall i :: 0 <= i < k ==> AltMatch(words, s[i..]).None?
    ensures CountMatches(words, s) == CountMatches(words, s[k..])
  {
    if k > 0 {
      assert s[0..] == s;
      assert AltMatch(words, s).None?;
      forall i | 0 <= i < k - 1 ensures AltMatch(words, s[1..][i..]).None? {
        assert s[1..][i..] == s[i + 1..];
      }
      SkipNoStart(words, s[1..], k - 1);
      assert s[1..][k - 1..] == s[k..];
    }
  }

  /** `s[i..]` does not start with `w` when they differ at offset `j`. */
  lemma DiffersAt(s: string, i: nat, w: string, j: nat)
    requires i + j < |s| && j < |w| && Lower(s[i + j]) != Lower(w[j])
    ensures !StartsWithCi(s[i..], w)
  {
    assert s[i..][j] == s[i + j];
  }

  /** Inside a match of one error word no other error word starts: each
      start is refuted at its first or second character, which still lies
      inside the match. */
  lemma InsideError(s: string)
    requires StartsWithCi(s, "ERROR")
    ensures forall i :: 0 <= i < 5 ==>
      !StartsWithCi(s[i..], "FAILED") && !StartsWithCi(s[i..], "Exception")
  {
    forall i | 0 <= i < 5
      ensures !StartsWithCi(s[i..], "FAILED") && !StartsWithCi(s[i..], "Exception")
    {
      assert Lower(s[i]) == Lower("ERROR"[i]);
      DiffersAt(s, i, "FAILED", 0);
      if i == 0 {
        assert Lower(s[1]) == Lower("ERROR"[1]);
        DiffersAt(s, i, "Exception", 1);
      } else {
        DiffersAt(s, i, "Exception", 0);
      }
    }
  }

  lemma InsideFailed(s: string)
    requires StartsWithCi(s, "FAILED")
    ensures forall i :: 0 <= i < 6 ==>
      !StartsWithCi(s[i..], "ERROR") && !StartsWithCi(s[i..], "Exception")
  {
    forall i | 0 <= i < 6
      ensures !StartsWithCi(s[i..], "ERROR") && !StartsWithCi(s[i..], "Exception")
    {
      assert Lower(s[i]) == Lower("FAILED"[i]);
      if i == 4 {
        assert Lower(s[5]) == Lower("FAILED"[5]);
        DiffersAt(s, i, "ERROR", 1);
        DiffersAt(s, i, "Exception", 1);
      } else {
        DiffersAt(s, i, "ERROR", 0);
        DiffersAt(s, i, "Exception", 0);
      }
    }
  }

  lemma InsideException(s: string)
    requires StartsWithCi(s, "Exception")
    ensures forall i :: 0 <= i < 9 ==>
      !StartsWithCi(s[i..], "ERROR") && !StartsWithCi(s[i..], "FAILED")
  {
    forall i | 0 <= i < 9
      ensures !StartsWithCi(s[i..], "ERROR") && !StartsWithCi(s[i..], "FAILED")
    {
      assert Lower(s[i]) == Lower("Exception"[i]);
      DiffersAt(s, i, "FAILED", 0);
      if i == 0 || i == 3 {
        assert Lower(s[i + 1]) == Lower("Exception"[i + 1]);
        DiffersAt(s, i, "ERROR", 1);
      } else {
        DiffersAt(s, i, "ERROR", 0);
      }
    }
  }

  lemma AltSingle(w: string, s: string)
    requires |w| >= 1
    ensures AltMatch([w], s).Some? <==> StartsWithCi(s, w)
    ensures AltMatch([w], s).Some? ==> AltMatch([w], s).value == |w|
  {
    assert [w][1..] == [];
  }

  /** A single word counts once where it matches and scanning resumes
      after it. */
  lemma SingleMatched(w: string, s: string)
    requires |w| >= 1 && StartsWithCi(s, w)
    ensures CountMatches([w], s) == 1 + CountMatches([w], s[|w|..])
  {
    AltSingle(w, s);
  }

  /** A single word that starts nowhere before `k` is not counted there. */
  lemma SingleSkipped(w: string, s: string, k: nat)
    requires |w| >= 1 && k <= |s|
    requires forall i :: 0 <= i < k ==> !StartsWithCi(s[i..], w)
    ensures CountMatches([w], s) == CountMatches([w], s[k..])
  {
    forall i | 0 <= i < k ensures AltMatch([w], s[i..]).None? {
      AltSingle(w, s[i..]);
    }
    SkipNoStart([w], s, k);
  }

  /** Which alternative of the error pattern matches at the start. */
  lemma AltErrorWords(s: string)
    ensures StartsWithCi(s, "ERROR") ==> AltMatch(ErrorWords, s) == Some(5)
    ensures (!StartsWithCi(s, "ERROR") && StartsWithCi(s, "FAILED"))
      ==> AltMatch(ErrorWords, s) == Some(6)
    ensures (!StartsWithCi(s, "ERROR") && !StartsWithCi(s, "FAILED")
             && StartsWithCi(s, "Exception"))
      ==> AltMatch(ErrorWords, s) == Some(9)
    ensures (!StartsWithCi(s, "ERROR") && !StartsWithCi(s, "FAILED")
             && !StartsWithCi(s, "Exception"))
      ==> AltMatch(ErrorWords, s) == None
  {
    assert ErrorWords[1..] == ["FAILED", "Exception"];
    assert AltMatch(ErrorWords, s)
        == if StartsWithCi(s, "ERROR") then Some(5) else AltMatch(["FAILED", "Exception"], s);
    assert ["FAILED", "Exception"][1..] == ["Exception"];
    assert AltMatch(["FAILED", "Exception"], s)
        == if StartsWithCi(s, "FAILED") then Some(6) else AltMatch(["Exception"], s);
    AltSingle("Exception", s);
  }

  function SeparateCounts(s: string): nat {
    CountMatches(["ERROR"], s) + CountMatches(["FAILED"], s) + CountMatches(["Exception"], s)
  }

  /** Step of the sum over a match of `ERROR`. */
  lemma StepError(s: string)
    requires StartsWithCi(s, "ERROR")
    ensures CountMatches(ErrorWords, s) == 1 + CountMatches(ErrorWords, s[5..])
    ensures SeparateCounts(s) == 1 + SeparateCounts(s[5..])
  {
    InsideError(s);
    AltErrorWords(s);
    SingleMatched("ERROR", s);
    SingleSkipped("FAILED", s, 5);
    SingleSkipped("Exception", s, 5);
  }

  lemma StepFailed(s: string)
    requires StartsWithCi(s, "FAILED")
    ensures CountMatches(ErrorWords, s) == 1 + CountMatches(ErrorWords, s[6..])
    ensures SeparateCounts(s) == 1 + SeparateCounts(s[6..])
  {
    InsideFailed(s);
    assert s[0..] == s;
    AltErrorWords(s);
    SingleMatched("FAILED", s);
    SingleSkipped("ERROR", s, 6);
    SingleSkipped("Exception", s, 6);
  }

  lemma StepException(s: string)
    requires StartsWithCi(s, "Exception")
    ensures CountMatches(ErrorWords, s) == 1 + CountMatches(ErrorWords, s[9..])
    ensures SeparateCounts(s) == 1 + SeparateCounts(s[9..])
  {
    InsideException(s);
    assert s[0..] == s;
    AltErrorWords(s);
    SingleMatched("Exception", s);
    SingleSkipped("ERROR", s, 9);
    SingleSkipped("FAILED", s, 9);
  }

  lemma StepNone(s: string)
    requires |s| > 0
    requires !StartsWithCi(s, "ERROR") && !StartsWithCi(s, "FAILED")
    requires !StartsWithCi(s, "Exception")
    ensures CountMatches(ErrorWords, s) == CountMatches(ErrorWords, s[1..])
    ensures SeparateCounts(s) == SeparateCounts(s[1..])
  {
    AltSingle("ERROR", s);
    AltSingle("FAILED", s);
    AltSingle("Exception", s);
    AltErrorWords(s);
  }

  /** No two of ERROR, FAILED and Exception can overlap, so the alternation
      counts exactly the sum of the three separate counts. */
  lemma {:induction false} ErrorsAreSum(s: string)
    ensures StatsOf(s).errors == SeparateCounts(s)
    decreases |s|
  {
    if |s| > 0 {
      if StartsWithCi(s, "ERROR") {
        StepError(s);
        ErrorsAreSum(s[5..]);
      } else if StartsWithCi(s, "FAILED") {
        StepFailed(s);
        ErrorsAreSum(s[6..]);
      } else if StartsWithCi(s, "Exception") {
        StepException(s);
        ErrorsAreSum(s[9..]);
      } else {
        StepNone(s);
        ErrorsAreSum(s[1..]);
      }
    }
  }
}
