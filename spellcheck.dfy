/**
 * The "did you mean" area of a search results view: the cache key under which
 * the search backend's spellcheck response is kept, when the area shows, how
 * the misspellings and their first candidates are read from the response, how
 * they are spliced into the submitted search text, and the link that results.
 */
module SpellCheck {
  import opened PhpStrings

  datatype Option<T> = None | Some(value: T)

  /** Appended to the view's results cache key. */
  const CacheSuffix: string := ":spellcheck"
  const DidYouMean: string := "Did you mean: "
  const QuestionMark: string := "?"

  // ---------------------------------------------------------------------------
  // Cache key

  /** The key of the cached spellcheck response: the view's results key, then ":spellcheck". */
  function CacheKey(resultsKey: string): (key: string)
    ensures |key| == |resultsKey| + |CacheSuffix|
    ensures key[..|resultsKey|] == resultsKey
    ensures key[|resultsKey|..] == CacheSuffix
  {
    resultsKey + CacheSuffix
  }

  /** Distinct results keys never share a spellcheck key. */
  lemma CacheKeyInjective(a: string, b: string)
    ensures CacheKey(a) == CacheKey(b) <==> a == b
  {
  }

  // ---------------------------------------------------------------------------
  // Visibility

  /**
   * Whether the area tries to produce output: always when the "hide when the
   * view has results" option is off, and only for an empty result when it is on.
   */
  function Visible(hideOnResult: bool, empty: bool): (show: bool)
    ensures show <==> !hideOnResult || empty
  {
    hideOnResult == false || (hideOnResult && empty)
  }

  // ---------------------------------------------------------------------------
  // The cached search response

  /**
   * One entry of the backend's `spellcheck.suggestions` list: a string (a
   * misspelled word), an array holding a `suggestion` list of candidates (a
   * missing `suggestion` key reads as an empty list), or any other value.
   */
  datatype Entry =
    | Misspelling(word: string)
    | Candidates(suggestion: seq<string>)
    | Other

  /**
   * What the cache holds for a key: `Null` when the result set carried no
   * backend response, otherwise the response, of which the model keeps the
   * `spellcheck.suggestions` list (if present) and whether it has any other key.
   */
  datatype Payload =
    | Null
    | Response(otherKeys: bool, suggestions: Option<seq<Entry>>)

  /** PHP truthiness of the cached data: a non-empty response array. */
  predicate Truthy(p: Payload) {
    p.Response? && (p.otherKeys || p.suggestions.Some?)
  }

  /** The suggestions list, an absent one read as empty. */
  function SuggestionList(p: Payload): seq<Entry> {
    if p.Response? && p.suggestions.Some? then p.suggestions.value else []
  }

  /** Strict alternation: every misspelling is directly followed by its candidates. */
  predicate Alternating(entries: seq<Entry>) {
    forall k :: 0 <= k < |entries| && entries[k].Misspelling? ==>
      k + 1 < |entries| && entries[k + 1].Candidates?
  }

  predicate PayloadWellFormed(p: Payload) {
    Alternating(SuggestionList(p))
  }

  // ---------------------------------------------------------------------------
  // Suggestion extraction

  /** A misspelling and the text that replaces it. */
  datatype Correction = Correction(error: string, suggestion: string)

  /**
   * The first candidate of a candidates entry. An empty candidate list reads
   * as PHP null, which `str_replace` takes as the empty string.
   */
  function FirstSuggestion(e: Entry): string {
    if e.Candidates? && |e.suggestion| > 0 then e.suggestion[0] else ""
  }

  /** The correction that the misspelling at index `k` contributes. */
  function CorrectionAt(entries: seq<Entry>, k: nat): Correction
    requires Alternating(entries)
    requires k < |entries| && entries[k].Misspelling?
  {
    Correction(entries[k].word, FirstSuggestion(entries[k + 1]))
  }

  /** The corrections contributed by the first `n` entries, in index order. */
  function CorrectionsUpTo(entries: seq<Entry>, n: nat): (pairs: seq<Correction>)
    requires Alternating(entries) && n <= |entries|
    ensures |pairs| <= n
  {
    if n == 0 then []
    else
      CorrectionsUpTo(entries, n - 1)
      + (if entries[n - 1].Misspelling? then [CorrectionAt(entries, n - 1)] else [])
  }

  function Corrections(entries: seq<Entry>): seq<Correction>
    requires Alternating(entries)
  {
    CorrectionsUpTo(entries, |entries|)
  }

  /**
   * Exactly the misspellings produce corrections, one each, in ascending index
   * order: `ks` lists the indexes the corrections come from.
   */
  lemma {:induction false} CorrectionsFromMisspellings(entries: seq<Entry>, n: nat) returns (ks: seq<nat>)
    requires Alternating(entries) && n <= |entries|
    ensures |ks| == |CorrectionsUpTo(entries, n)|
    ensures forall j :: 0 <= j < |ks| ==>
      ks[j] < n && entries[ks[j]].Misspelling? && CorrectionsUpTo(entries, n)[j] == CorrectionAt(entries, ks[j])
    ensures forall j, j' :: 0 <= j < j' < |ks| ==> ks[j] < ks[j']
    ensures forall k :: 0 <= k < n && entries[k].Misspelling? ==> k in ks
  {
    if n == 0 {
      ks := [];
    } else {
      var prev := CorrectionsUpTo(entries, n - 1);
      ks := CorrectionsFromMisspellings(entries, n - 1);
      if entries[n - 1].Misspelling? {
        assert CorrectionsUpTo(entries, n) == prev + [CorrectionAt(entries, n - 1)];
        ks := ks + [n - 1];
      } else {
        assert CorrectionsUpTo(entries, n) == prev;
      }
    }
  }

  /** A list without misspellings, the empty list among them, yields no corrections. */
  lemma {:induction false} NoMisspellingsNoCorrections(entries: seq<Entry>, n: nat)
    requires Alternating(entries) && n <= |entries|
    requires forall k :: 0 <= k < n ==> !entries[k].Misspelling?
    ensures CorrectionsUpTo(entries, n) == []
  {
    if n > 0 {
      NoMisspellingsNoCorrections(entries, n - 1);
    }
  }

  /** The loop that collects the corrections, entry by entry. */
  method CollectCorrections(entries: seq<Entry>) returns (pairs: seq<Correction>)
    requires Alternating(entries)
    ensures pairs == Corrections(entries)
  {
    pairs := [];
    for k := 0 to |entries|
      invariant pairs == CorrectionsUpTo(entries, k)
    {
      match entries[k]
      case Misspelling(word) =>
        pairs := pairs + [Correction(word, FirstSuggestion(entries[k + 1]))];
      case _ =>
    }
  }

  // ---------------------------------------------------------------------------
  // Substitution

  /** The search text after `str_replace(error, suggestion, ·)` for each correction in turn. */
  function Corrected(text: string, pairs: seq<Correction>): string
    decreases |pairs|
  {
    if pairs == [] then text
    else Corrected(Replace(text, pairs[0].error, pairs[0].suggestion), pairs[1..])
  }

  /** Applying two runs of corrections one after the other is applying their concatenation. */
  lemma {:induction false} CorrectedAppend(text: string, ps: seq<Correction>, qs: seq<Correction>)
    ensures Corrected(text, ps + qs) == Corrected(Corrected(text, ps), qs)
    decreases |ps|
  {
    if ps == [] {
      assert ps + qs == qs;
    } else {
      assert (ps + qs)[1..] == ps[1..] + qs;
      CorrectedAppend(Replace(text, ps[0].error, ps[0].suggestion), ps[1..], qs);
    }
  }

  /** A correction whose misspelling is not in the text when its turn comes changes nothing. */
  lemma CorrectedSkipsAbsent(text: string, ps: seq<Correction>, p: Correction, qs: seq<Correction>)
    requires !Occurs(Corrected(text, ps), p.error)
    ensures Corrected(text, ps + [p] + qs) == Corrected(text, ps + qs)
  {
    CorrectedAppend(text, ps + [p], qs);
    CorrectedAppend(text, ps, [p]);
    ReplaceAbsent(Corrected(text, ps), p.error, p.suggestion);
    assert Corrected(Corrected(text, ps), [p]) == Corrected(text, ps);
    CorrectedAppend(text, ps, qs);
  }

  /** When no misspelling occurs in the text, the text comes back unchanged. */
  lemma {:induction false} CorrectedNothingFound(text: string, pairs: seq<Correction>)
    requires forall j :: 0 <= j < |pairs| ==> !Occurs(text, pairs[j].error)
    ensures Corrected(text, pairs) == text
    decreases |pairs|
  {
    if pairs != [] {
      ReplaceAbsent(text, pairs[0].error, pairs[0].suggestion);
      CorrectedNothingFound(text, pairs[1..]);
    }
  }

  /** The loop that rewrites the search text, one correction at a time. */
  method ApplyCorrections(text: string, pairs: seq<Correction>) returns (keys: string)
    ensures keys == Corrected(text, pairs)
  {
    keys := text;
    for i := 0 to |pairs|
      invariant Corrected(keys, pairs[i..]) == Corrected(text, pairs)
    {
      assert pairs[i..][1..] == pairs[i + 1..];
      keys := Replace(keys, pairs[i].error, pairs[i].suggestion);
    }
  }

  // ---------------------------------------------------------------------------
  // The rendered suggestion

  /** A piece of the render array: a text span, or a link to the current page with a `keys` parameter. */
  datatype Part =
    | Span(text: string)
    | Link(title: string, keys: string)

  /** The link title: the corrected text with every `+` shown as a space. */
  function LinkTitle(text: string): string {
    Replace(text, "+", " ")
  }

  /** The `keys` URL parameter: the corrected text with every space written as `+`. */
  function KeysParam(text: string): string {
    Replace(text, " ", "+")
  }

  lemma LinkTitleSpec(text: string)
    ensures |LinkTitle(text)| == |text|
    ensures forall i :: 0 <= i < |text| ==> LinkTitle(text)[i] == if text[i] == '+' then ' ' else text[i]
    ensures '+' !in LinkTitle(text)
  {
    ReplaceChar(text, '+', ' ');
  }

  lemma KeysParamSpec(text: string)
    ensures |KeysParam(text)| == |text|
    ensures forall i :: 0 <= i < |text| ==> KeysParam(text)[i] == if text[i] == ' ' then '+' else text[i]
    ensures ' ' !in KeysParam(text)
  {
    ReplaceChar(text, ' ', '+');
  }

  /**
   * Title and parameter carry the same text: decoding `+` in the parameter
   * gives the title, and encoding spaces in the title gives the parameter.
   */
  lemma TitleAndKeysAgree(text: string)
    ensures Replace(KeysParam(text), "+", " ") == LinkTitle(text)
    ensures Replace(LinkTitle(text), " ", "+") == KeysParam(text)
  {
    LinkTitleSpec(text);
    KeysParamSpec(text);
    ReplaceChar(KeysParam(text), '+', ' ');
    ReplaceChar(LinkTitle(text), ' ', '+');
  }

  /** The three parts of the output, in order. */
  function Suggestion(text: string): (build: seq<Part>)
    ensures |build| == 3
    ensures build[0] == Span(DidYouMean) && build[2] == Span(QuestionMark)
    ensures build[1] == Link(LinkTitle(text), KeysParam(text))
    ensures '+' !in build[1].title && ' ' !in build[1].keys
  {
    LinkTitleSpec(text);
    KeysParamSpec(text);
    [Span(DidYouMean), Link(LinkTitle(text), KeysParam(text)), Span(QuestionMark)]
  }

  /** The submitted search text for the configured filter; a missing one reads as empty. */
  function QueryText(exposedInput: map<string, string>, filterName: string): string {
    if filterName in exposedInput then exposedInput[filterName] else ""
  }

  /** Example: the query "speling test", with the candidates "spelling" and "spieling" for "speling". */
  lemma SpellingExampleCorrections()
    ensures Corrections([Misspelling("speling"), Candidates(["spelling", "spieling"])])
         == [Correction("speling", "spelling")]
  {
    var entries := [Misspelling("speling"), Candidates(["spelling", "spieling"])];
    assert CorrectionsUpTo(entries, 1) == [Correction("speling", "spelling")];
  }

  lemma SpellingExampleText()
    ensures Corrected("speling test", [Correction("speling", "spelling")]) == "spelling test"
  {
  }

  lemma SpellingExampleKeys()
    ensures KeysParam("spelling test") == "spelling+test"
  {
    KeysParamOfTwoWords("spelling", "test");
    assert "spelling" + " " + "test" == "spelling test";
    assert "spelling" + "+" + "test" == "spelling+test";
  }

  /** Two words without spaces, joined by a space, are sent joined by '+'. */
  lemma KeysParamOfTwoWords(a: string, b: string)
    requires ' ' !in a && ' ' !in b
    ensures KeysParam(a + " " + b) == a + "+" + b
  {
    var text := a + " " + b;
    KeysParamSpec(text);
    assert forall i :: 0 <= i < |text| ==> KeysParam(text)[i] == (a + "+" + b)[i];
  }

  // ---------------------------------------------------------------------------
  // Exposed full-text filters

  /** A filter of the view: its key, whether it is a full-text filter, and its exposed identifier ("" if none). */
  datatype ViewFilter = ViewFilter(key: string, fulltext: bool, identifier: string)

  /** The value recorded for a filter: the lower-cased submitted text, or PHP `false`. */
  datatype FilterValue = Submitted(lowered: string) | NotSubmitted

  /** The key a full-text filter is recorded under: its identifier unless that is empty. */
  function FilterKey(f: ViewFilter): string {
    if Empty(f.identifier) then f.key else f.identifier
  }

  function FilterValueOf(exposedInput: map<string, string>, key: string): FilterValue {
    if key in exposedInput && !Empty(exposedInput[key]) then Submitted(ToLower(exposedInput[key]))
    else NotSubmitted
  }

  /** The filter map after visiting the filters in order (a later filter overwrites an equal key). */
  function FilterState(filters: seq<ViewFilter>, exposedInput: map<string, string>): map<string, FilterValue>
    decreases |filters|
  {
    if filters == [] then map[]
    else
      var f := filters[|filters| - 1];
      var m := FilterState(filters[..|filters| - 1], exposedInput);
      if f.fulltext then m[FilterKey(f) := FilterValueOf(exposedInput, FilterKey(f))] else m
  }

  /**
   * Every full-text filter, and nothing else, has an entry under its key, and
   * the entry is the lower-cased submitted text for that key or `false`.
   */
  lemma {:induction false} FilterStateSpec(filters: seq<ViewFilter>, exposedInput: map<string, string>)
    ensures FilterState(filters, exposedInput).Keys == set f | f in filters && f.fulltext :: FilterKey(f)
    ensures forall k :: k in FilterState(filters, exposedInput) ==>
      FilterState(filters, exposedInput)[k] == FilterValueOf(exposedInput, k)
    decreases |filters|
  {
    if filters != [] {
      var init := filters[..|filters| - 1];
      var f := filters[|filters| - 1];
      FilterStateSpec(init, exposedInput);
      assert filters == init + [f];
      assert (set g | g in filters && g.fulltext :: FilterKey(g))
          == (set g | g in init && g.fulltext :: FilterKey(g)) + (if f.fulltext then {FilterKey(f)} else {});
    }
  }

  /** A recorded value is never an empty string and never holds an ASCII capital. */
  lemma FilterValuesLowered(filters: seq<ViewFilter>, exposedInput: map<string, string>, k: string)
    requires k in FilterState(filters, exposedInput)
    ensures FilterState(filters, exposedInput)[k].Submitted? <==> k in exposedInput && !Empty(exposedInput[k])
    ensures FilterState(filters, exposedInput)[k].Submitted? ==>
      var v := FilterState(filters, exposedInput)[k].lowered;
      |v| > 0 && forall i :: 0 <= i < |v| ==> !('A' <= v[i] <= 'Z')
  {
  }

  // ---------------------------------------------------------------------------
  // The area plugin

  /**
   * One instance of the area on one view: its two options, the view's results
   * cache key, exposed input and filters, and the filter map it memoizes.
   */
  class SpellCheckArea {
    const filterName: string
    const hideOnResult: bool
    const resultsKey: string
    const exposedInput: map<string, string>
    const viewFilters: seq<ViewFilter>
    var filters: Option<map<string, FilterValue>>

    /** A memoized filter map is the one the view's filters determine. */
    ghost predicate Valid()
      reads this
    {
      filters.Some? ==> filters.value == FilterState(viewFilters, exposedInput)
    }

    constructor (filterName: string, hideOnResult: bool, resultsKey: string,
                 exposedInput: map<string, string>, viewFilters: seq<ViewFilter>)
      ensures Valid() && filters == None
      ensures this.filterName == filterName && this.hideOnResult == hideOnResult
      ensures this.resultsKey == resultsKey && this.exposedInput == exposedInput
      ensures this.viewFilters == viewFilters
    {
      this.filterName := filterName;
      this.hideOnResult := hideOnResult;
      this.resultsKey := resultsKey;
      this.exposedInput := exposedInput;
      this.viewFilters := viewFilters;
      filters := None;
    }

    /** The full-text filter map, built on the first call and reused afterwards. */
    method GetFilters() returns (r: map<string, FilterValue>)
      requires Valid()
      modifies this
      ensures Valid()
      ensures filters == Some(r)
      ensures r == FilterState(viewFilters, exposedInput)
    {
      if filters.None? {
        var m: map<string, FilterValue> := map[];
        for i := 0 to |viewFilters|
          invariant m == FilterState(viewFilters[..i], exposedInput)
        {
          var f := viewFilters[i];
          assert viewFilters[..i + 1][..i] == viewFilters[..i];
          if f.fulltext {
            var key := f.key;
            if !Empty(f.identifier) {
              key := f.identifier;
            }
            m := m[key := if key in exposedInput && !Empty(exposedInput[key])
                          then Submitted(ToLower(exposedInput[key])) else NotSubmitted];
          }
        }
        assert viewFilters[..|viewFilters|] == viewFilters;
        filters := Some(m);
      }
      r := filters.value;
    }

    /**
     * Renders the area given whether the view result is empty and the cache
     * contents: nothing when the area is hidden or the cache holds no non-empty
     * response under the spellcheck key; otherwise the suggestion for the
     * submitted text with every misspelling replaced in turn.
     */
    method Render(empty: bool, store: map<string, Payload>) returns (build: seq<Part>)
      requires Visible(hideOnResult, empty) && CacheKey(resultsKey) in store ==>
        PayloadWellFormed(store[CacheKey(resultsKey)])
      ensures !Visible(hideOnResult, empty) ==> build == []
      ensures CacheKey(resultsKey) !in store ==> build == []
      ensures CacheKey(resultsKey) in store && !Truthy(store[CacheKey(resultsKey)]) ==> build == []
      ensures Visible(hideOnResult, empty) && CacheKey(resultsKey) in store && Truthy(store[CacheKey(resultsKey)]) ==>
        build == Suggestion(Corrected(QueryText(exposedInput, filterName),
                                      Corrections(SuggestionList(store[CacheKey(resultsKey)]))))
    {
      build := [];
      if hideOnResult == false || (hideOnResult && empty) {
        var key := CacheKey(resultsKey);
        if key in store && Truthy(store[key]) {
          var data := store[key];
          var keys := QueryText(exposedInput, filterName);
          var pairs := [];
          if data.suggestions.Some? && |data.suggestions.value| > 0 {
            pairs := CollectCorrections(data.suggestions.value);
          }
          keys := ApplyCorrections(keys, pairs);
          build := [Span(DidYouMean), Link(Replace(keys, "+", " "), Replace(keys, " ", "+")), Span(QuestionMark)];
        }
      }
    }
  }
}
