/**
 * The listing filter of the content script: the keep/remove predicate, the
 * preserved-element rule, the two passes of `filterElements`,
 * `clearFilter`, the visible-count rule and `findRelatedSearchesContainer`.
 *
 * The page is abstracted to the elements that any selector can reach, in
 * document order. Selector matching is precomputed: each element carries the
 * set of selector strings it matches, its `textContent`, and whether it
 * contains or sits inside a `MAIN-PAGINATION` widget. The class
 * `amazon-filter-hidden` is the flag `hidden`.
 */
module Content {
  import opened Wrappers
  import opened Text

  /** The selector of a product listing, `div[data-asin]`. */
  const ListingSelector: string := "div[data-asin]"

  /** The heading text that marks the related-searches block. */
  const RelatedSearches: string := "related searches"

  /** One element of the page. */
  datatype Element = Element(
    text: string,                 // textContent
    matches: set<string>,         // the selectors this element matches
    containsPagination: bool,     // has a [cel_widget_id*="MAIN-PAGINATION"] descendant
    insidePagination: bool,       // is, or is inside, such a widget
    hidden: bool)                 // carries the class amazon-filter-hidden

  /**
   * An `h2` of the page: its text and the index of its nearest
   * `div[data-asin]` ancestor, if any. An index that points at no element
   * of the page stands for "no container": no element is preserved by it.
   */
  datatype Heading = Heading(text: string, closestListing: Option<nat>)

  /**
   * The `config` object `filterElements` receives. A field the sender left
   * out is `None`.
   */
  datatype Config = Config(
    selector: string,
    removeWords: Option<seq<string>>,
    keepWords: Option<seq<string>>,
    removeSelectors: Option<seq<string>>)

  /** The TypeError the word pass raises on a missing word list. */
  datatype FilterError = RemoveWordsMissing | KeepWordsMissing

  /** The default parameter of `filterElements`, used when it gets no config. */
  const DefaultConfig: Config := Config(ListingSelector, Some([]), Some([]), Some([]))

  // ---------------------------------------------------------------------------
  // findRelatedSearchesContainer

  /** The heading's lowercased text includes "related searches". */
  predicate MentionsRelated(h: Heading): (r: bool)
    ensures r <==> IsSubstring(RelatedSearches, Lower(h.text))
  {
    Includes(Lower(h.text), RelatedSearches)
  }

  /** Heading `k` is the first heading that mentions related searches. */
  ghost predicate IsFirstMention(hs: seq<Heading>, k: int)
  {
    0 <= k < |hs| && MentionsRelated(hs[k]) &&
    forall j :: 0 <= j < k ==> !MentionsRelated(hs[j])
  }

  /**
   * The nearest listing ancestor of the first heading that mentions related
   * searches; `None` when there is no such heading or it has no such ancestor.
   */
  function FindRelatedSearchesContainer(hs: seq<Heading>): (r: Option<nat>)
    ensures r.Some? ==> exists k :: IsFirstMention(hs, k) && hs[k].closestListing == r
    ensures forall k :: IsFirstMention(hs, k) ==> hs[k].closestListing == r
    ensures (forall k :: 0 <= k < |hs| ==> !MentionsRelated(hs[k])) ==> r.None?
  {
    if hs == [] then None
    else if MentionsRelated(hs[0]) then
      assert IsFirstMention(hs, 0);
      hs[0].closestListing
    else
      var r := FindRelatedSearchesContainer(hs[1..]);
      assert forall k :: IsFirstMention(hs, k) <==> k > 0 && IsFirstMention(hs[1..], k - 1);
      r
  }

  // ---------------------------------------------------------------------------
  // The preserved-element rule and the keep/remove predicate

  /**
   * Element `i` is exempt from both passes: it is the related-searches
   * container, or it contains or sits inside a pagination widget.
   */
  predicate Preserved(e: Element, i: nat, related: Option<nat>)
  {
    related == Some(i) || e.containsPagination || e.insidePagination
  }

  /** Some word of `words`, lowercased, is included in `text`. */
  function AnyIncluded(text: string, words: seq<string>): (r: bool)
    ensures r <==> exists k :: 0 <= k < |words| && IsSubstring(Lower(words[k]), text)
  {
    if words == [] then false
    else
      var rest := AnyIncluded(text, words[1..]);
      assert forall k :: 1 <= k < |words| ==> words[k] == words[1..][k - 1];
      Includes(text, Lower(words[0])) || rest
  }

  /**
   * The word decision for one listing: hide it when its lowercased text
   * includes a remove word, or when there are keep words and it includes
   * none of them.
   */
  function WordHides(text: string, removeWords: seq<string>, keepWords: seq<string>): (r: bool)
    ensures r <==>
      (exists k :: 0 <= k < |removeWords| && IsSubstring(Lower(removeWords[k]), Lower(text))) ||
      (|keepWords| > 0 && forall k :: 0 <= k < |keepWords| ==> !IsSubstring(Lower(keepWords[k]), Lower(text)))
  {
    var t := Lower(text);
    var shouldRemove := AnyIncluded(t, removeWords);
    var shouldKeep := |keepWords| == 0 || AnyIncluded(t, keepWords);
    shouldRemove || !shouldKeep
  }

  // ---------------------------------------------------------------------------
  // The two passes of filterElements, as functions of the page

  /** Element `i` is visited by the word pass and not skipped. */
  predicate WordCandidate(es: seq<Element>, i: nat, related: Option<nat>, selector: string)
    requires i < |es|
  {
    selector in es[i].matches && !Preserved(es[i], i, related)
  }

  /** Some element is visited by the word pass and not skipped. */
  predicate HasWordCandidate(es: seq<Element>, related: Option<nat>, selector: string)
  {
    exists i :: 0 <= i < |es| && WordCandidate(es, i, related, selector)
  }

  /** The word pass's effect on element `i`. */
  function WordStep(es: seq<Element>, i: nat, related: Option<nat>, selector: string,
                    removeWords: seq<string>, keepWords: seq<string>): Element
    requires i < |es|
  {
    if WordCandidate(es, i, related, selector)
    then es[i].(hidden := WordHides(es[i].text, removeWords, keepWords))
    else es[i]
  }

  /**
   * The word pass (first `forEach`). A missing word list raises a TypeError
   * at the first element that is not skipped; every element visited before
   * it was skipped, so the page is unchanged.
   */
  function WordPass(es: seq<Element>, related: Option<nat>, config: Config): (r: Result<seq<Element>, FilterError>)
    ensures r.Failure? <==>
      HasWordCandidate(es, related, config.selector) && (config.removeWords.None? || config.keepWords.None?)
    ensures r.Failure? ==> (r.error == RemoveWordsMissing <==> config.removeWords.None?)
    ensures r.Success? ==> SameButHidden(es, r.value)
    ensures r.Success? ==> forall i :: 0 <= i < |es| && !WordCandidate(es, i, related, config.selector) ==> r.value[i] == es[i]
  {
    if !HasWordCandidate(es, related, config.selector) then Success(es)
    else if config.removeWords.None? then Failure(RemoveWordsMissing)
    else if config.keepWords.None? then Failure(KeepWordsMissing)
    else Success(seq(|es|, i requires 0 <= i < |es| =>
                   WordStep(es, i, related, config.selector, config.removeWords.value, config.keepWords.value)))
  }

  /** The element matches one of `selectors`. */
  predicate MatchesAny(e: Element, selectors: seq<string>)
  {
    exists k :: 0 <= k < |selectors| && selectors[k] in e.matches
  }

  /** The remove-selector pass's effect on one element. */
  function RemoveStep(e: Element, i: nat, related: Option<nat>, selectors: seq<string>): Element
  {
    if !Preserved(e, i, related) && MatchesAny(e, selectors) then e.(hidden := true) else e
  }

  /** The remove-selector pass (second `forEach`); skipped when the list is missing or empty. */
  function RemovePass(es: seq<Element>, related: Option<nat>, removeSelectors: Option<seq<string>>): (r: seq<Element>)
    ensures SameButHidden(es, r)
    ensures forall i :: 0 <= i < |es| ==>
      (r[i].hidden <==>
        (es[i].hidden ||
         (removeSelectors.Some? && !Preserved(es[i], i, related) && MatchesAny(es[i], removeSelectors.value))))
  {
    if removeSelectors.None? || |removeSelectors.value| == 0 then es
    else seq(|es|, i requires 0 <= i < |es| => RemoveStep(es[i], i, related, removeSelectors.value))
  }

  /** Both passes of `filterElements` on the page's elements. */
  function Filter(es: seq<Element>, related: Option<nat>, config: Config): (r: Result<seq<Element>, FilterError>)
    ensures r.Failure? <==>
      HasWordCandidate(es, related, config.selector) && (config.removeWords.None? || config.keepWords.None?)
    ensures r.Success? ==> SameButHidden(es, r.value)
  {
    match WordPass(es, related, config)
    case Failure(err) => Failure(err)
    case Success(afterWords) => Success(RemovePass(afterWords, related, config.removeSelectors))
  }

  /** What `clearFilter` does to the elements: no element keeps the marker. */
  function Cleared(es: seq<Element>): (r: seq<Element>)
    ensures SameButHidden(es, r)
    ensures forall i :: 0 <= i < |r| ==> !r[i].hidden
  {
    seq(|es|, i requires 0 <= i < |es| => es[i].(hidden := false))
  }

  /** The number of style elements after `filterElements`: one is inserted only when none exists. */
  function StylesAfterFilter(styles: nat): (r: nat)
    ensures r >= 1
    ensures styles <= r <= styles + 1
    ensures styles > 0 ==> r == styles
  {
    if styles == 0 then 1 else styles
  }

  /** The number of style elements after `clearFilter`: `getElementById` finds one, and it is removed. */
  function StylesAfterClear(styles: nat): (r: nat)
    ensures r <= styles && styles <= r + 1
    ensures styles > 0 ==> r < styles
  {
    if styles == 0 then 0 else styles - 1
  }

  // ---------------------------------------------------------------------------
  // The visible-count rule (the getVisibleCount branch)

  /** Element `i` is a listing that is neither preserved nor hidden. */
  predicate CountedVisible(es: seq<Element>, i: nat, related: Option<nat>)
    requires i < |es|
  {
    ListingSelector in es[i].matches && !Preserved(es[i], i, related) && !es[i].hidden
  }

  /** The indices, below `n`, of listings that are neither preserved nor hidden. */
  ghost function VisibleSet(es: seq<Element>, related: Option<nat>, n: nat): set<nat>
    requires n <= |es|
  {
    set i: nat | i < n && CountedVisible(es, i, related)
  }

  /** The indices, below `n`, of listings. */
  ghost function ListingSet(es: seq<Element>, n: nat): set<nat>
    requires n <= |es|
  {
    set i: nat | i < n && ListingSelector in es[i].matches
  }

  /** Extending a prefix by element `n - 1` adds at most that index to each set. */
  lemma SetsStep(es: seq<Element>, related: Option<nat>, n: nat)
    requires 0 < n <= |es|
    ensures n - 1 !in VisibleSet(es, related, n - 1) && n - 1 !in ListingSet(es, n - 1)
    ensures VisibleSet(es, related, n) ==
      VisibleSet(es, related, n - 1) + (if CountedVisible(es, n - 1, related) then {n - 1} else {})
    ensures ListingSet(es, n) ==
      ListingSet(es, n - 1) + (if ListingSelector in es[n - 1].matches then {n - 1} else {})
  {
  }

  /** There are no more visible listings than listings. */
  lemma {:induction false} VisibleWithinListings(es: seq<Element>, related: Option<nat>, n: nat)
    requires n <= |es|
    ensures |VisibleSet(es, related, n)| <= |ListingSet(es, n)|
  {
    if n == 0 {
      assert VisibleSet(es, related, 0) == {};
    } else {
      VisibleWithinListings(es, related, n - 1);
      SetsStep(es, related, n);
    }
  }

  /** `filter(...).length` over the first `n` elements. */
  function CountVisiblePrefix(es: seq<Element>, related: Option<nat>, n: nat): (r: nat)
    requires n <= |es|
    ensures r == |VisibleSet(es, related, n)|
    ensures r <= |ListingSet(es, n)|
  {
    VisibleWithinListings(es, related, n);
    if n == 0 then
      assert VisibleSet(es, related, 0) == {};
      0
    else
      var before := CountVisiblePrefix(es, related, n - 1);
      SetsStep(es, related, n);
      if CountedVisible(es, n - 1, related) then before + 1 else before
  }

  /** The number `getVisibleCount` reports. */
  function VisibleCount(es: seq<Element>, hs: seq<Heading>): (r: nat)
    ensures r == |VisibleSet(es, FindRelatedSearchesContainer(hs), |es|)|
    ensures r <= |ListingSet(es, |es|)|
  {
    VisibleWithinListings(es, FindRelatedSearchesContainer(hs), |es|);
    CountVisiblePrefix(es, FindRelatedSearchesContainer(hs), |es|)
  }

  // ---------------------------------------------------------------------------
  // Properties of filterElements and clearFilter

  /** `b` is `a` with at most the `hidden` flags changed. */
  ghost predicate SameButHidden(a: seq<Element>, b: seq<Element>)
  {
    |a| == |b| && forall i :: 0 <= i < |a| ==> b[i] == a[i].(hidden := b[i].hidden)
  }

  /**
   * After the word pass, a candidate that is not preserved is hidden exactly
   * when a remove word occurs in its lowercased text, or keep words exist and
   * none occurs; every other element is unchanged.
   */
  lemma WordPassDecides(es: seq<Element>, related: Option<nat>, config: Config, i: nat)
    requires i < |es|
    requires WordPass(es, related, config).Success?
    ensures var after := WordPass(es, related, config).value;
      |after| == |es| &&
      (WordCandidate(es, i, related, config.selector) ==>
        (after[i].hidden <==>
          (exists k :: 0 <= k < |config.removeWords.value| &&
             IsSubstring(Lower(config.removeWords.value[k]), Lower(es[i].text))) ||
          (|config.keepWords.value| > 0 &&
           forall k :: 0 <= k < |config.keepWords.value| ==>
             !IsSubstring(Lower(config.keepWords.value[k]), Lower(es[i].text))))) &&
      (!WordCandidate(es, i, related, config.selector) ==> after[i] == es[i])
  {
  }

  /**
   * Remove words beat keep words: a candidate whose text includes both a
   * keep word and a remove word ends hidden.
   */
  lemma RemoveWordBeatsKeepWord(es: seq<Element>, related: Option<nat>, config: Config, i: nat, r: nat, k: nat)
    requires i < |es| && WordCandidate(es, i, related, config.selector)
    requires config.removeWords.Some? && config.keepWords.Some?
    requires r < |config.removeWords.value| && k < |config.keepWords.value|
    requires Includes(Lower(es[i].text), Lower(config.removeWords.value[r]))
    requires Includes(Lower(es[i].text), Lower(config.keepWords.value[k]))
    ensures Filter(es, related, config).Success?
    ensures Filter(es, related, config).value[i].hidden
  {
  }

  /**
   * With no remove words, no keep words and no matching remove selector,
   * every candidate that is not preserved ends visible.
   */
  lemma EmptyRulesShowEverything(es: seq<Element>, related: Option<nat>, config: Config)
    requires config.removeWords == Some([]) && config.keepWords == Some([])
    requires config.removeSelectors.Some? ==> forall i :: 0 <= i < |es| ==> !MatchesAny(es[i], config.removeSelectors.value)
    ensures Filter(es, related, config).Success?
    ensures forall i :: 0 <= i < |es| && WordCandidate(es, i, related, config.selector) ==>
      !Filter(es, related, config).value[i].hidden
  {
  }

  /** The default config hides nothing: every listing that is not preserved ends visible. */
  lemma DefaultConfigShowsListings(es: seq<Element>, related: Option<nat>)
    ensures Filter(es, related, DefaultConfig).Success?
    ensures forall i :: 0 <= i < |es| && ListingSelector in es[i].matches && !Preserved(es[i], i, related) ==>
      !Filter(es, related, DefaultConfig).value[i].hidden
  {
    EmptyRulesShowEverything(es, related, DefaultConfig);
    forall i | 0 <= i < |es| && ListingSelector in es[i].matches && !Preserved(es[i], i, related)
      ensures WordCandidate(es, i, related, DefaultConfig.selector)
    {
    }
  }

  /**
   * A worked example of the word decision, with remove word "refurbished"
   * and keep word "Wireless" (which is lowercased before matching): a
   * listing that includes the keep word and no remove word is kept.
   */
  lemma WirelessMouseKept()
    ensures !WordHides("Wireless Mouse", ["refurbished"], ["Wireless"])
  {
    assert Lower("refurbished") == "refurbished" && Lower("Wireless") == "wireless";
    assert Lower("Wireless Mouse") == "wireless mouse";
    assert OccursAt("wireless", "wireless mouse", 0);
    NoOccurrence("refurbished", "wireless mouse", [0, 0, 2, 0]);
  }

  /** A listing that includes the remove word is hidden although it includes the keep word. */
  lemma RefurbishedMouseHidden()
    ensures WordHides("Refurbished Wireless Mouse", ["refurbished"], ["Wireless"])
  {
    assert Lower("refurbished") == "refurbished";
    assert Lower("Refurbished Wireless Mouse") == "refurbished wireless mouse";
    assert OccursAt("refurbished", "refurbished wireless mouse", 0);
  }

  /** A listing that includes no keep word is hidden. */
  lemma WiredKeyboardHidden()
    ensures WordHides("Wired Keyboard", ["refurbished"], ["Wireless"])
  {
    assert Lower("refurbished") == "refurbished" && Lower("Wireless") == "wireless";
    assert Lower("Wired Keyboard") == "wired keyboard";
    NoOccurrence("refurbished", "wired keyboard", [0, 0, 2, 0]);
    NoOccurrence("wireless", "wired keyboard", [4, 0, 0, 0, 0, 0, 0]);
  }

  /**
   * `w` occurs nowhere in `t` when, for each start position `i`, the
   * character at offset `miss[i]` differs.
   */
  lemma NoOccurrence(w: string, t: string, miss: seq<nat>)
    requires |w| <= |t| && |miss| == |t| - |w| + 1
    requires forall i :: 0 <= i < |miss| ==> miss[i] < |w| && t[i + miss[i]] != w[miss[i]]
    ensures !IsSubstring(w, t)
  {
    forall i | 0 <= i < |miss| ensures !OccursAt(w, t, i) {
      assert t[i..i + |w|][miss[i]] == t[i + miss[i]];
    }
  }

  /** Preserved elements come through both passes unchanged. */
  lemma FilterKeepsPreserved(es: seq<Element>, related: Option<nat>, config: Config, i: nat)
    requires i < |es| && Preserved(es[i], i, related)
    requires Filter(es, related, config).Success?
    ensures Filter(es, related, config).value[i] == es[i]
  {
  }

  /**
   * Every element that is not preserved and matches a remove selector ends
   * hidden, whatever the word pass decided; and the remove-selector pass
   * never clears a flag.
   */
  lemma RemoveSelectorsWin(es: seq<Element>, related: Option<nat>, config: Config, i: nat)
    requires i < |es|
    requires Filter(es, related, config).Success?
    ensures var wordsDone := WordPass(es, related, config).value;
      wordsDone[i].hidden ==> Filter(es, related, config).value[i].hidden
    ensures config.removeSelectors.Some? && !Preserved(es[i], i, related) &&
            MatchesAny(es[i], config.removeSelectors.value) ==>
      Filter(es, related, config).value[i].hidden
  {
  }

  /** The preserved rule and the word candidates depend only on what filtering leaves alone. */
  lemma CandidatesUnchanged(a: seq<Element>, b: seq<Element>, related: Option<nat>, selector: string)
    requires SameButHidden(a, b)
    ensures forall i :: 0 <= i < |a| ==> (Preserved(a[i], i, related) <==> Preserved(b[i], i, related))
    ensures forall i :: 0 <= i < |a| ==> (WordCandidate(a, i, related, selector) <==> WordCandidate(b, i, related, selector))
    ensures HasWordCandidate(a, related, selector) <==> HasWordCandidate(b, related, selector)
  {
  }

  /** Filtering an already filtered page with the same config changes nothing. */
  lemma {:induction false} FilterIdempotent(es: seq<Element>, related: Option<nat>, config: Config)
    requires Filter(es, related, config).Success?
    ensures Filter(Filter(es, related, config).value, related, config) == Filter(es, related, config)
  {
    var once := Filter(es, related, config).value;
    CandidatesUnchanged(es, once, related, config.selector);
    var again := WordPass(once, related, config);
    assert again.Success?;
    var twice := RemovePass(again.value, related, config.removeSelectors);
    forall i | 0 <= i < |es|
      ensures twice[i] == once[i]
    {
      assert once[i] == es[i].(hidden := once[i].hidden);
    }
    assert twice == once;
  }

  /** Clearing after filtering gives the page clearing alone would give. */
  lemma ClearUndoesFilter(es: seq<Element>, related: Option<nat>, config: Config)
    requires Filter(es, related, config).Success?
    ensures Cleared(Filter(es, related, config).value) == Cleared(es)
  {
  }

  /** One style element at most before filtering means exactly one after. */
  lemma FilterLeavesOneStyle(styles: nat)
    requires styles <= 1
    ensures StylesAfterFilter(styles) == 1
  {
  }

  /** One style element at most before clearing means none after. */
  lemma ClearLeavesNoStyle(styles: nat)
    requires styles <= 1
    ensures StylesAfterClear(styles) == 0
  {
  }

  /**
   * After clearing, the visible count is the number of listings that are not
   * preserved.
   */
  lemma ClearedCountsAllUnpreserved(es: seq<Element>, hs: seq<Heading>)
    ensures VisibleCount(Cleared(es), hs) ==
      |set i: nat | i < |es| && ListingSelector in es[i].matches && !Preserved(es[i], i, FindRelatedSearchesContainer(hs))|
  {
    var related := FindRelatedSearchesContainer(hs);
    assert VisibleSet(Cleared(es), related, |es|) ==
      set i: nat | i < |es| && ListingSelector in es[i].matches && !Preserved(es[i], i, related);
  }

  // ---------------------------------------------------------------------------
  // The page, updated in place

  /** The document as the content script sees it. */
  class Page {
    /** Every element any selector reaches, in document order. */
    const elements: array<Element>
    /** The page's `h2` headings, in document order. */
    const headings: seq<Heading>
    /** How many elements with id `amazon-filter-style` the document holds. */
    var styleCount: nat

    constructor (es: seq<Element>, hs: seq<Heading>, styles: nat)
      ensures fresh(elements)
      ensures elements[..] == es && headings == hs && styleCount == styles
    {
      elements := new Element[|es|](i requires 0 <= i < |es| => es[i]);
      headings := hs;
      styleCount := styles;
    }

    /**
     * `filterElements(config)`: install the style element if absent, then run
     * the word pass and the remove-selector pass over the elements in place.
     */
    method FilterElements(config: Config) returns (outcome: Outcome<FilterError>)
      modifies this, elements
      ensures styleCount == StylesAfterFilter(old(styleCount))
      ensures old(styleCount) <= 1 ==> styleCount == 1
      ensures match Filter(old(elements[..]), FindRelatedSearchesContainer(headings), config)
        case Success(after) => outcome == Pass && elements[..] == after
        case Failure(err) => outcome == Fail(err) && elements[..] == old(elements[..])
    {
      if styleCount == 0 {
        styleCount := 1;
      }
      var related := FindRelatedSearchesContainer(headings);
      outcome := ApplyWordPass(config, related);
      if outcome.Pass? {
        ApplyRemovePass(related, config.removeSelectors);
      }
    }

    /** The first `forEach` of `filterElements`: set or clear each candidate's marker. */
    method ApplyWordPass(config: Config, related: Option<nat>) returns (outcome: Outcome<FilterError>)
      modifies elements
      ensures match WordPass(old(elements[..]), related, config)
        case Success(after) => outcome == Pass && elements[..] == after
        case Failure(err) => outcome == Fail(err) && elements[..] == old(elements[..])
    {
      ghost var before := elements[..];
      var i := 0;
      while i < elements.Length
        invariant 0 <= i <= elements.Length
        invariant forall k :: i <= k < elements.Length ==> elements[k] == before[k]
        invariant config.removeWords.None? || config.keepWords.None? ==>
          elements[..] == before && forall k :: 0 <= k < i ==> !WordCandidate(before, k, related, config.selector)
        invariant config.removeWords.Some? && config.keepWords.Some? ==>
          forall k :: 0 <= k < i ==>
            elements[k] == WordStep(before, k, related, config.selector, config.removeWords.value, config.keepWords.value)
      {
        var e := elements[i];
        if config.selector in e.matches && !Preserved(e, i, related) {
          assert WordCandidate(before, i, related, config.selector);
          if config.removeWords.None? {
            return Fail(RemoveWordsMissing);
          }
          if config.keepWords.None? {
            return Fail(KeepWordsMissing);
          }
          elements[i] := e.(hidden := WordHides(e.text, config.removeWords.value, config.keepWords.value));
        }
        i := i + 1;
      }
      if config.removeWords.Some? && config.keepWords.Some? {
        assert elements[..] == seq(|before|, k requires 0 <= k < |before| =>
          WordStep(before, k, related, config.selector, config.removeWords.value, config.keepWords.value));
        if !HasWordCandidate(before, related, config.selector) {
          assert elements[..] == before;
        }
      } else {
        assert !HasWordCandidate(before, related, config.selector);
      }
      return Pass;
    }

    /**
     * The second `forEach` of `filterElements`: for each remove selector in
     * turn, mark every matching element that is not preserved.
     */
    method ApplyRemovePass(related: Option<nat>, removeSelectors: Option<seq<string>>)
      modifies elements
      ensures elements[..] == RemovePass(old(elements[..]), related, removeSelectors)
    {
      if removeSelectors.None? || |removeSelectors.value| == 0 {
        return;
      }
      var selectors := removeSelectors.value;
      ghost var before := elements[..];
      var s := 0;
      while s < |selectors|
        invariant 0 <= s <= |selectors|
        invariant forall k :: 0 <= k < elements.Length ==>
          elements[k] == RemoveStep(before[k], k, related, selectors[..s])
      {
        var j := 0;
        while j < elements.Length
          invariant 0 <= j <= elements.Length
          invariant forall k :: 0 <= k < j ==>
            elements[k] == RemoveStep(before[k], k, related, selectors[..s + 1])
          invariant forall k :: j <= k < elements.Length ==>
            elements[k] == RemoveStep(before[k], k, related, selectors[..s])
        {
          MatchesAnyExtend(before[j], selectors, s);
          if selectors[s] in elements[j].matches && !Preserved(elements[j], j, related) {
            elements[j] := elements[j].(hidden := true);
          }
          j := j + 1;
        }
        s := s + 1;
      }
      assert selectors[..|selectors|] == selectors;
    }

    /**
     * `clearFilter()`: remove the style element `getElementById` finds, and
     * the marker from every element that carries it.
     */
    method ClearFilter()
      modifies this, elements
      ensures styleCount == StylesAfterClear(old(styleCount))
      ensures old(styleCount) <= 1 ==> styleCount == 0
      ensures elements[..] == Cleared(old(elements[..]))
    {
      if styleCount > 0 {
        styleCount := styleCount - 1;
      }
      ghost var before := elements[..];
      var i := 0;
      while i < elements.Length
        invariant 0 <= i <= elements.Length
        invariant forall k :: 0 <= k < i ==> elements[k] == before[k].(hidden := false)
        invariant forall k :: i <= k < elements.Length ==> elements[k] == before[k]
        modifies elements
      {
        if elements[i].hidden {
          elements[i] := elements[i].(hidden := false);
        }
        i := i + 1;
      }
    }
  }

  /** Matching one of the first `s + 1` selectors is matching one of the first `s` or selector `s`. */
  lemma MatchesAnyExtend(e: Element, selectors: seq<string>, s: nat)
    requires s < |selectors|
    ensures MatchesAny(e, selectors[..s + 1]) <==> MatchesAny(e, selectors[..s]) || selectors[s] in e.matches
  {
  }
}
