/** The `LogLens` class of content.js: its configuration, the discovery
    passes that enhance each log container once, the enhancement pipeline
    and line folding.

    The page is seen through `querySelectorAll` results and `textContent`
    snapshots; each container's `innerHTML` is a string the class reads and
    writes. */
module LogLens {
  import opened Common
  import AnsiRenderer
  import ErrorHighlighter

  // ---------------------------------------------------------------------
  // Configuration

  /** `this.config` as the constructor sets it. */
  const ContentDefaults: Config := map[
    "ansiColors" := Bool(true),
    "searchEnabled" := Bool(true),
    "foldEnabled" := Bool(true),
    "errorHighlighting" := Bool(true),
    "jumpToFailure" := Bool(true),
    "theme" := Str("default")
  ]

  /** `{ ...current, ...saved }` when a configuration was saved; the
      current one otherwise. */
  function MergeConfig(current: Config, saved: Option<Config>): (r: Config)
    ensures saved.None? ==> r == current
    ensures saved.Some? ==> r.Keys == current.Keys + saved.value.Keys
    ensures saved.Some? ==> forall k :: k in saved.value ==> r[k] == saved.value[k]
    ensures saved.Some? ==>
      forall k :: k in current && k !in saved.value ==> r[k] == current[k]
  {
    if saved.Some? then current + saved.value else current
  }

  // ---------------------------------------------------------------------
  // Detection of generic logs

  /** `/^\d{4}-\d{2}-\d{2}/`: a date at the very start of the text. */
  predicate StartsWithDate(text: string) {
    |text| >= 10
    && IsDigit(text[0]) && IsDigit(text[1]) && IsDigit(text[2]) && IsDigit(text[3])
    && text[4] == '-' && IsDigit(text[5]) && IsDigit(text[6])
    && text[7] == '-' && IsDigit(text[8]) && IsDigit(text[9])
  }

  /** The test `processGenericLogs` applies to a `pre` or `code` element's
      text: longer than 100 characters and showing one of the log
      markers. */
  predicate IsGenericLog(text: string) {
    |text| > 100 && (
      Contains(text, "[ERROR]") || Contains(text, "[WARN]")
      || Contains(text, "ERROR:") || Contains(text, "FAILED")
      || StartsWithDate(text) || Contains(text, "ansi")
      || Contains(text, [Esc, '[']))
  }

  // ---------------------------------------------------------------------
  // Enhancement of one container

  /** The markup `enhanceLogContainer` computes: the escape-sequence
      renderer when `ansiColors` is truthy, then the error highlighter when
      `errorHighlighting` is truthy. */
  function EnhancedMarkup(config: Config, html: string): string {
    var rendered := if Enabled(config, "ansiColors")
      then AnsiRenderer.RenderAnsiColors(html) else html;
    if Enabled(config, "errorHighlighting")
    then ErrorHighlighter.HighlightErrors(rendered) else rendered
  }

  type ElementId = nat

  datatype Platform = GitHub | GitLab | Jenkins | Generic

  /** A container together with the platform it was found for. */
  type Visit = (ElementId, Platform)

  /** What the content script has done to the page so far: the markup of
      the containers it wrote, the containers carrying the
      `loglens-processed` class, the controls bars it inserted (one per
      container whose markup changed), and every `enhanceLogContainer`
      call. */
  datatype State = State(
    dom: map<ElementId, string>,
    processed: set<ElementId>,
    controls: seq<Visit>,
    calls: seq<Visit>)

  function Markup(dom: map<ElementId, string>, id: ElementId): string {
    if id in dom then dom[id] else ""
  }

  /** One element of a discovery loop: a container without the processed
      class is enhanced and then marked; a marked one is skipped. */
  function Step(config: Config, st: State, v: Visit): (r: State)
    ensures r.processed == st.processed + {v.0}
    ensures v.0 in st.processed ==> r == st
    ensures v.0 !in st.processed ==> r.calls == st.calls + [v]
    ensures r.dom.Keys <= st.dom.Keys + {v.0}
  {
    if v.0 in st.processed then st
    else
      var original := Markup(st.dom, v.0);
      var enhanced := EnhancedMarkup(config, original);
      State(
        if enhanced != original then st.dom[v.0 := enhanced] else st.dom,
        st.processed + {v.0},
        if enhanced != original then st.controls + [v] else st.controls,
        st.calls + [v])
  }

  /** The elements of `visits`, visited in order. */
  function Steps(config: Config, st: State, visits: seq<Visit>): State {
    if |visits| == 0 then st
    else Step(config, Steps(config, st, visits[..|visits| - 1]), visits[|visits| - 1])
  }

  // ---------------------------------------------------------------------
  // The discovery passes

  const GitHubSelectors: seq<string> :=
    [".js-log-line", ".log-line", "pre[data-filterable-for=\"job-logs-filter\"]", ".job-logs"]
  const GitLabSelectors: seq<string> := [".job-log", ".build-log", ".ci-log", "pre.build-trace"]
  const JenkinsSelectors: seq<string> := ["#main-panel pre", ".console-output", "pre.console"]
  const GenericSelector: string := "pre, code"

  /** The page as the passes query it: the elements each selector finds,
      in document order, and the text content of elements. */
  datatype Page = Page(query: map<string, seq<ElementId>>, text: map<ElementId, string>)

  function Select(page: Page, selector: string): seq<ElementId> {
    if selector in page.query then page.query[selector] else []
  }

  function TextOf(page: Page, id: ElementId): string {
    if id in page.text then page.text[id] else ""
  }

  function Tag(ids: seq<ElementId>, p: Platform): (vs: seq<Visit>)
    ensures |vs| == |ids| && forall i :: 0 <= i < |ids| ==> vs[i] == (ids[i], p)
  {
    seq(|ids|, i requires 0 <= i < |ids| => (ids[i], p))
  }

  /** The containers a platform pass visits: the elements of each selector
      in turn. */
  function PlatformVisits(page: Page, selectors: seq<string>, p: Platform): seq<Visit> {
    if |selectors| == 0 then []
    else PlatformVisits(page, selectors[..|selectors| - 1], p)
         + Tag(Select(page, selectors[|selectors| - 1]), p)
  }

  /** The `pre` and `code` elements of `ids` whose text looks like a log. */
  function GenericVisits(page: Page, ids: seq<ElementId>): seq<Visit> {
    if |ids| == 0 then []
    else GenericVisits(page, ids[..|ids| - 1])
         + (if IsGenericLog(TextOf(page, ids[|ids| - 1]))
            then [(ids[|ids| - 1], Generic)] else [])
  }

  /** Everything `processLogs` visits, in order. */
  function PageVisits(page: Page): seq<Visit> {
    PlatformVisits(page, GitHubSelectors, GitHub)
    + PlatformVisits(page, GitLabSelectors, GitLab)
    + PlatformVisits(page, JenkinsSelectors, Jenkins)
    + GenericVisits(page, Select(page, GenericSelector))
  }

  // ---------------------------------------------------------------------
  // Lines of a container

  /** `toggleFold` on lines whose folded flags are `folded`: every line
      takes the negation of the first line's flag. */
  function ToggledFolds(folded: seq<bool>): (r: seq<bool>)
    ensures |r| == |folded|
    ensures forall i :: 0 <= i < |r| ==> r[i] == !folded[0]
  {
    seq(|folded|, i requires 0 <= i < |folded| => !folded[0])
  }

  /** The content script's state and its operations. */
  class LogLens {
    var config: Config
    var dom: map<ElementId, string>
    var processed: set<ElementId>
    var controls: seq<Visit>
    ghost var calls: seq<Visit>

    ghost function Snapshot(): State
      reads this
    {
      State(dom, processed, controls, calls)
    }

    /** Every container was enhanced at most once, and exactly the
        enhanced ones carry the processed class. */
    ghost predicate Valid()
      reads this
    {
      Consistent(Snapshot())
    }

    /** The constructor sets the default configuration; `dom` is the markup
        of the page's containers. */
    constructor(dom0: map<ElementId, string>)
      ensures config == ContentDefaults && dom == dom0
      ensures processed == {} && controls == [] && calls == []
      ensures Valid()
    {
      config := ContentDefaults;
      dom := dom0;
      processed := {};
      controls := [];
      calls := [];
    }

    /** `init`: merge the saved configuration, then process the page. */
    method Init(saved: Option<Config>, page: Page)
      requires Valid()
      modifies this
      ensures config == MergeConfig(old(config), saved)
      ensures Snapshot() == Steps(config, old(Snapshot()), PageVisits(page))
      ensures Valid()
    {
      config := MergeConfig(config, saved);
      ProcessLogs(page);
    }

    /** `enhanceLogContainer` followed by marking the container. */
    method VisitElement(id: ElementId, p: Platform)
      requires Valid()
      modifies this
      ensures config == old(config)
      ensures Snapshot() == Step(config, old(Snapshot()), (id, p))
      ensures Valid()
    {
      if id !in processed {
        var original := Markup(dom, id);
        var enhanced := EnhancedMarkup(config, original);
        if enhanced != original {
          dom := dom[id := enhanced];
          controls := controls + [(id, p)];
        }
        calls := calls + [(id, p)];
        processed := processed + {id};
      }
      StepConsistent(config, old(Snapshot()), (id, p));
    }

    /** One selector of a platform pass: `querySelectorAll(selector).forEach`. */
    method ProcessSelector(ids: seq<ElementId>, p: Platform)
      requires Valid()
      modifies this
      ensures config == old(config)
      ensures Snapshot() == Steps(config, old(Snapshot()), Tag(ids, p))
      ensures Valid()
    {
      var j := 0;
      while j < |ids|
        invariant 0 <= j <= |ids| && config == old(config) && Valid()
        invariant Snapshot() == Steps(config, old(Snapshot()), Tag(ids[..j], p))
      {
        TagSnoc(ids, j, p);
        StepsSnoc(config, old(Snapshot()), Tag(ids[..j], p), (ids[j], p));
        VisitElement(ids[j], p);
        j := j + 1;
      }
      assert ids[..j] == ids;
    }

    /** `processGitHubActions`, `processGitLabCI`, `processJenkins`. */
    method ProcessPlatform(page: Page, selectors: seq<string>, p: Platform)
      requires Valid()
      modifies this
      ensures config == old(config)
      ensures Snapshot() == Steps(config, old(Snapshot()), PlatformVisits(page, selectors, p))
      ensures Valid()
    {
      var i := 0;
      while i < |selectors|
        invariant 0 <= i <= |selectors| && config == old(config) && Valid()
        invariant Snapshot() == Steps(config, old(Snapshot()), PlatformVisits(page, selectors[..i], p))
      {
        ProcessSelector(Select(page, selectors[i]), p);
        PlatformSnoc(page, selectors, i, p);
        StepsAppend(config, old(Snapshot()), PlatformVisits(page, selectors[..i], p),
                    Tag(Select(page, selectors[i]), p));
        i := i + 1;
      }
      assert selectors[..i] == selectors;
    }

    /** `processGenericLogs`. */
    method ProcessGeneric(page: Page)
      requires Valid()
      modifies this
      ensures config == old(config)
      ensures Snapshot() == Steps(config, old(Snapshot()),
                                  GenericVisits(page, Select(page, GenericSelector)))
      ensures Valid()
    {
      var ids := Select(page, GenericSelector);
      var j := 0;
      while j < |ids|
        invariant 0 <= j <= |ids| && config == old(config)
        invariant Snapshot() == Steps(config, old(Snapshot()), GenericVisits(page, ids[..j]))
      {
        GenericSnoc(page, ids, j);
        if IsGenericLog(TextOf(page, ids[j])) {
          StepsConsistent(config, old(Snapshot()), GenericVisits(page, ids[..j]));
          StepsSnoc(config, old(Snapshot()), GenericVisits(page, ids[..j]), (ids[j], Generic));
          VisitElement(ids[j], Generic);
        }
        j := j + 1;
      }
      assert ids[..j] == ids;
      StepsConsistent(config, old(Snapshot()), GenericVisits(page, ids));
    }

    /** `processLogs`: the three platform passes, then the generic one. */
    method ProcessLogs(page: Page)
      requires Valid()
      modifies this
      ensures config == old(config)
      ensures Snapshot() == Steps(config, old(Snapshot()), PageVisits(page))
      ensures Valid()
    {
      ghost var s0 := Snapshot();
      var a := PlatformVisits(page, GitHubSelectors, GitHub);
      var b := PlatformVisits(page, GitLabSelectors, GitLab);
      var c := PlatformVisits(page, JenkinsSelectors, Jenkins);
      var d := GenericVisits(page, Select(page, GenericSelector));
      ProcessPlatform(page, GitHubSelectors, GitHub);
      ProcessPlatform(page, GitLabSelectors, GitLab);
      StepsAppend(config, s0, a, b);
      ProcessPlatform(page, JenkinsSelectors, Jenkins);
      StepsAppend(config, s0, a + b, c);
      ProcessGeneric(page);
      StepsAppend(config, s0, a + b + c, d);
    }

    /** `toggleFold` on the folded flags of a container's lines. */
    method ToggleFold(folded: array<bool>)
      modifies folded
      ensures folded[..] == if folded.Length == 0 then old(folded[..])
                            else ToggledFolds(old(folded[..]))
    {
      if folded.Length > 0 {
        var isFolded := folded[0];
        var i := 0;
        while i < folded.Length
          invariant 0 <= i <= folded.Length
          invariant forall k :: 0 <= k < i ==> folded[k] == !isFolded
          invariant forall k :: i <= k < folded.Length ==> folded[k] == old(folded[k])
          invariant isFolded == old(folded[0])
        {
          folded[i] := !isFolded;
          i := i + 1;
        }
      }
    }
  }

  // ---------------------------------------------------------------------
  // Properties of the passes

  /** A run of visits followed by one more. */
  lemma StepsSnoc(config: Config, st: State, visits: seq<Visit>, v: Visit)
    ensures Steps(config, st, visits + [v]) == Step(config, Steps(config, st, visits), v)
  {
    assert (visits + [v])[..|visits|] == visits;
  }

  lemma TagSnoc(ids: seq<ElementId>, j: nat, p: Platform)
    requires j < |ids|
    ensures Tag(ids[..j + 1], p) == Tag(ids[..j], p) + [(ids[j], p)]
  {
  }

  lemma PlatformSnoc(page: Page, selectors: seq<string>, i: nat, p: Platform)
    requires i < |selectors|
    ensures PlatformVisits(page, selectors[..i + 1], p)
         == PlatformVisits(page, selectors[..i], p) + Tag(Select(page, selectors[i]), p)
  {
    assert selectors[..i + 1][..i] == selectors[..i];
  }

  lemma GenericSnoc(page: Page, ids: seq<ElementId>, j: nat)
    requires j < |ids|
    ensures IsGenericLog(TextOf(page, ids[j])) ==>
      GenericVisits(page, ids[..j + 1]) == GenericVisits(page, ids[..j]) + [(ids[j], Generic)]
    ensures !IsGenericLog(TextOf(page, ids[j])) ==>
      GenericVisits(page, ids[..j + 1]) == GenericVisits(page, ids[..j])
  {
    assert ids[..j + 1][..j] == ids[..j];
    assert GenericVisits(page, ids[..j]) + [] == GenericVisits(page, ids[..j]);
  }

  lemma {:induction false} StepsAppend(config: Config, st: State, a: seq<Visit>, b: seq<Visit>)
    ensures Steps(config, st, a + b) == Steps(config, Steps(config, st, a), b)
    decreases |b|
  {
    if |b| == 0 {
      assert a + b == a;
    } else {
      var ab := a + b;
      assert ab[..|ab| - 1] == a + b[..|b| - 1];
      assert ab[|ab| - 1] == b[|b| - 1];
      StepsAppend(config, st, a, b[..|b| - 1]);
    }
  }

  function CallIds(calls: seq<Visit>): (ids: seq<ElementId>)
    ensures |ids| == |calls| && forall i :: 0 <= i < |calls| ==> ids[i] == calls[i].0
  {
    seq(|calls|, i requires 0 <= i < |calls| => calls[i].0)
  }

  predicate NoDuplicates(ids: seq<ElementId>) {
    forall i, j :: 0 <= i < j < |ids| ==> ids[i] != ids[j]
  }

  /** No container was enhanced twice, and the processed class is on
      exactly the enhanced containers; the controls bars are for enhanced
      containers. */
  predicate Consistent(st: State) {
    NoDuplicates(CallIds(st.calls))
    && (forall id :: id in st.processed ==> id in CallIds(st.calls))
    && (forall i :: 0 <= i < |st.calls| ==> st.calls[i].0 in st.processed)
    && (forall v :: v in st.controls ==> v in st.calls)
  }

  lemma StepConsistent(config: Config, st: State, v: Visit)
    requires Consistent(st)
    ensures Consistent(Step(config, st, v))
  {
    if v.0 !in st.processed {
      var ids := CallIds(st.calls + [v]);
      assert ids == CallIds(st.calls) + [v.0];
    }
  }

  /** Consistency holds across any number of passes: each container is
      enhanced at most once. */
  lemma {:induction false} StepsConsistent(config: Config, st: State, visits: seq<Visit>)
    requires Consistent(st)
    ensures Consistent(Steps(config, st, visits))
  {
    if |visits| > 0 {
      StepsConsistent(config, st, visits[..|visits| - 1]);
      StepConsistent(config, Steps(config, st, visits[..|visits| - 1]), visits[|visits| - 1]);
    }
  }

  function IdSet(visits: seq<Visit>): set<ElementId> {
    set v | v in visits :: v.0
  }

  /** Every visited container ends up marked, whether or not its markup
      changed, and no other container is marked. */
  lemma {:induction false} StepsProcessed(config: Config, st: State, visits: seq<Visit>)
    ensures Steps(config, st, visits).processed == st.processed + IdSet(visits)
  {
    if |visits| > 0 {
      var init := visits[..|visits| - 1];
      StepsProcessed(config, st, init);
      assert visits == init + [visits[|visits| - 1]];
      assert IdSet(visits) == IdSet(init) + {visits[|visits| - 1].0};
    }
  }

  /** Calls are only appended, each for a visited container that was not
      marked before. */
  lemma {:induction false} StepsCalls(config: Config, st: State, visits: seq<Visit>)
    ensures var r := Steps(config, st, visits);
      |r.calls| >= |st.calls| && r.calls[..|st.calls|] == st.calls
      && forall k :: |st.calls| <= k < |r.calls| ==>
           r.calls[k] in visits && r.calls[k].0 !in st.processed
  {
    if |visits| > 0 {
      var init := visits[..|visits| - 1];
      var v := visits[|visits| - 1];
      StepsCalls(config, st, init);
      StepsProcessed(config, st, init);
      var before := Steps(config, st, init);
      assert forall u :: u in init ==> u in visits;
      if v.0 !in before.processed {
        var r := Steps(config, st, visits);
        assert r.calls == before.calls + [v];
        assert r.calls[..|st.calls|] == before.calls[..|st.calls|];
      }
    }
  }

  lemma StepsSingle(config: Config, st: State, v: Visit)
    ensures Steps(config, st, [v]) == Step(config, st, v)
  {
    assert [v][..0] == [];
  }

  lemma StepsSplit(config: Config, st: State, visits: seq<Visit>, i: nat)
    requires i < |visits|
    ensures Steps(config, st, visits)
         == Steps(config, Step(config, Steps(config, st, visits[..i]), visits[i]), visits[i + 1..])
  {
    var pre, v, post := visits[..i], visits[i], visits[i + 1..];
    assert visits == pre + [v] + post;
    StepsAppend(config, st, pre + [v], post);
    StepsAppend(config, st, pre, [v]);
    StepsSingle(config, Steps(config, st, pre), v);
  }

  /** Before its first visit, a container that was not marked is neither
      marked nor enhanced. */
  lemma NotYetVisited(config: Config, st: State, pre: seq<Visit>, id: ElementId)
    requires Consistent(st) && id !in st.processed
    requires forall v :: v in pre ==> v.0 != id
    ensures id !in Steps(config, st, pre).processed
    ensures forall c :: c in Steps(config, st, pre).calls ==> c.0 != id
  {
    StepsProcessed(config, st, pre);
    StepsCalls(config, st, pre);
    var s1 := Steps(config, st, pre);
    forall c | c in s1.calls ensures c.0 != id {
      var k :| 0 <= k < |s1.calls| && s1.calls[k] == c;
      if k < |st.calls| {
        assert st.calls[k] == c;
      }
    }
  }

  /** A container found by several selectors or platforms is enhanced once,
      for the first visit to it. */
  lemma FirstVisitWins(config: Config, st: State, visits: seq<Visit>, i: nat)
    requires Consistent(st) && i < |visits| && visits[i].0 !in st.processed
    requires forall k :: 0 <= k < i ==> visits[k].0 != visits[i].0
    ensures visits[i] in Steps(config, st, visits).calls
    ensures forall c :: c in Steps(config, st, visits).calls && c.0 == visits[i].0
                        ==> c == visits[i]
  {
    var v := visits[i];
    StepsSplit(config, st, visits, i);
    NotYetVisited(config, st, visits[..i], v.0);
    var s2 := Step(config, Steps(config, st, visits[..i]), v);
    StepsCalls(config, s2, visits[i + 1..]);
    var s3 := Steps(config, s2, visits[i + 1..]);
    assert s2.calls[|s2.calls| - 1] == v;
    forall c | c in s3.calls && c.0 == v.0 ensures c == v {
      var k :| 0 <= k < |s3.calls| && s3.calls[k] == c;
      assert k < |s2.calls| && s2.calls[k] == c;
    }
  }

  /** A pass over containers that are all marked changes nothing. */
  lemma {:induction false} MarkedSkipped(config: Config, st: State, visits: seq<Visit>)
    requires forall v :: v in visits ==> v.0 in st.processed
    ensures Steps(config, st, visits) == st
  {
    if |visits| > 0 {
      assert forall v :: v in visits[..|visits| - 1] ==> v in visits;
      MarkedSkipped(config, st, visits[..|visits| - 1]);
    }
  }

  /** Running the same pass again, on an unchanged page, does nothing. */
  lemma RepeatedPassIsNoop(config: Config, st: State, visits: seq<Visit>)
    ensures Steps(config, Steps(config, st, visits), visits) == Steps(config, st, visits)
  {
    StepsProcessed(config, st, visits);
    MarkedSkipped(config, Steps(config, st, visits), visits);
  }

  /** `enhanceLogContainer` writes the markup and adds a controls bar
      exactly when the transformed markup differs from the original. */
  lemma StepWritesOnChange(config: Config, st: State, v: Visit)
    requires v.0 !in st.processed
    ensures var original := Markup(st.dom, v.0);
      var changed := EnhancedMarkup(config, original) != original;
      var r := Step(config, st, v);
      (changed <==> r.controls == st.controls + [v])
      && (changed ==> Markup(r.dom, v.0) == EnhancedMarkup(config, original))
      && (!changed ==> r.dom == st.dom && r.controls == st.controls)
      && (forall id :: id != v.0 ==> Markup(r.dom, id) == Markup(st.dom, id))
  {
    var r := Step(config, st, v);
    assert |st.controls + [v]| != |st.controls|;
  }

  /** With both `ansiColors` and `errorHighlighting` off, enhancement
      changes nothing and no controls are added. */
  lemma {:induction false} TransformsOffNoop(config: Config, st: State, visits: seq<Visit>)
    requires !Enabled(config, "ansiColors") && !Enabled(config, "errorHighlighting")
    ensures Steps(config, st, visits).dom == st.dom
    ensures Steps(config, st, visits).controls == st.controls
  {
    if |visits| > 0 {
      TransformsOffNoop(config, st, visits[..|visits| - 1]);
    }
  }

  /** Markup with no escape character and none of the characters that start
      an error pattern is left alone, under any configuration. */
  lemma PlainMarkupUnchanged(config: Config, html: string)
    requires Esc !in html
    requires forall c :: c in html ==> !ErrorHighlighter.IsLeadChar(c)
    ensures EnhancedMarkup(config, html) == html
  {
    AnsiRenderer.NoEscUnchanged(html);
    ErrorHighlighter.NoLeadCharUnchanged(html);
  }

  /** With the default configuration both transforms run, renderer first. */
  lemma DefaultsRunBoth(html: string)
    ensures EnhancedMarkup(ContentDefaults, html)
         == ErrorHighlighter.HighlightErrors(AnsiRenderer.RenderAnsiColors(html))
    ensures EnhancedMarkup(MergeConfig(ContentDefaults, None), html)
         == EnhancedMarkup(ContentDefaults, html)
  {
    assert Enabled(ContentDefaults, "ansiColors");
    assert Enabled(ContentDefaults, "errorHighlighting");
  }

  /** A long text holding a whole escape sequence is taken for a log. */
  lemma EscapeSequenceDetected(text: string, i: nat, k: nat)
    requires |text| > 100 && i <= |text| && AnsiRenderer.IsSequence(text[i..], k)
    ensures IsGenericLog(text)
  {
    assert text[i..][..2] == [Esc, '['];
    assert StartsWith(text[i..], [Esc, '[']);
  }

  /** More text after a log keeps it a log: each marker the test looks for
      is still there, and a leading date still leads. */
  lemma GenericLogExtends(a: string, b: string)
    requires IsGenericLog(a)
    ensures IsGenericLog(a + b)
  {
    forall w | Contains(a, w)
      ensures Contains(a + b, w)
    {
      ContainsExtends(a, b, w);
    }
  }

  lemma ContainsExtends(a: string, b: string, w: string)
    requires Contains(a, w)
    ensures Contains(a + b, w)
  {
    var i :| 0 <= i <= |a| - |w| && StartsWith(a[i..], w);
    assert (a + b)[i..][..|w|] == a[i..][..|w|];
  }

  // ---------------------------------------------------------------------
  // Folding

  /** After a toggle all lines agree; a second toggle gives every line the
      first line's original flag, so it undoes the first exactly when the
      lines agreed to begin with. */
  lemma ToggleTwice(folded: seq<bool>)
    requires |folded| > 0
    ensures forall i :: 0 <= i < |folded| ==> ToggledFolds(ToggledFolds(folded))[i] == folded[0]
    ensures ToggledFolds(ToggledFolds(folded)) == folded
        <==> forall i :: 0 <= i < |folded| ==> folded[i] == folded[0]
  {
    var twice := ToggledFolds(ToggledFolds(folded));
    if twice == folded {
      assert forall i :: 0 <= i < |folded| ==> twice[i] == folded[i];
    }
  }
}
