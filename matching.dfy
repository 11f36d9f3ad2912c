/**
 * What one edit notification does, as functions of the document, the
 * selection and the normalised rules: the candidate window before the cursor,
 * the acceptance chain of one rule, the first-match-wins scan, and the
 * resulting document.
 */
module Matching {
  import opened Wrappers
  import opened Rules
  import opened Buffer

  /**
   * The triples `(locale, a, b)` for which `a.localeCompare(b, locale, { sensitivity: "base" })`
   * is 0. The locale's folding rules are not modelled.
   */
  type LocaleEquals = iset<(Option<string>, string, string)>

  /** `a.localeCompare(a, ...)` is 0 for every text and every locale. */
  ghost predicate Reflexive(localeEquals: LocaleEquals)
  {
    forall locale: Option<string>, a: string :: (locale, a, a) in localeEquals
  }

  /**
   * The position the engine looks behind: the caret, or the position just
   * before the document's final character when the editor has no selection.
   */
  function CursorEnd(selection: Option<Range>, length: nat): (end: nat)
    ensures InDocument(selection, length) ==> end <= length
    ensures selection.Some? ==> end == selection.value.index
    ensures selection.None? && length > 0 ==> end + 1 == length
    ensures selection.None? && length == 0 ==> end == 0
  {
    match selection
    case Some(range) => range.index
    case None => if length == 0 then 0 else length - 1
  }

  /** `Math.max(0, end - longest)`: where the candidate window starts. */
  function WindowStart(end: nat, longest: nat): (start: nat)
    ensures start <= end && end - start <= longest
    ensures start == 0 || end - start == longest
  {
    if end < longest then 0 else end - longest
  }

  /**
   * The text fetched once per edit: the (up to) `longest` characters right
   * before the cursor. With no rules there is no longest length and nothing
   * reads the window; it is taken as empty.
   */
  function CandidateText(text: string, end: nat, longest: Option<nat>): (w: string)
    ensures |w| <= end
    ensures longest.Some? ==> |w| <= longest.value
    ensures longest.Some? && end <= |text| ==> |w| == (if end < longest.value then end else longest.value)
  {
    match longest
    case None => []
    case Some(l) =>
      var start := WindowStart(end, l);
      Slice(text, start, end - start)
  }

  /**
   * The prefix window of a rule: it starts `lookback` characters before the
   * candidate (never before 0) and is given by its start and its length.
   */
  function PrefixRange(end: nat, matchLength: nat, lookback: int): (r: Range)
    ensures lookback < 0 ==> r.length == 0
    ensures lookback >= 0 ==> r.length <= lookback
    ensures lookback >= 0 && matchLength <= end ==>
              r.index + r.length == end - matchLength
              && r.length == (if lookback <= end - matchLength then lookback else end - matchLength)
  {
    var windowStart := if end - matchLength - lookback < 0 then 0 else end - matchLength - lookback;
    var windowEnd := if end - matchLength - windowStart < 0 then 0 else end - matchLength - windowStart;
    Range(windowStart, windowEnd)
  }

  /** Everything one scan of the rules looks at. */
  datatype Scan = Scan(text: string, end: nat, window: string, locale: Option<string>, localeEquals: LocaleEquals)

  /** The last `matchLength` characters of the window. */
  function Candidate(item: InternalItem, s: Scan): string
    requires item.matchLength <= |s.window|
  {
    s.window[|s.window| - item.matchLength..]
  }

  /** The text a rule's prefix test is applied to. */
  function PrefixText(item: InternalItem, s: Scan): string
  {
    var p := PrefixRange(s.end, item.matchLength, item.maxPrefixLookback);
    Slice(s.text, p.index, p.length)
  }

  /** `item.prefix.test(text)` when the rule has a prefix; a rule without one accepts any text. */
  predicate PrefixAccepts(item: InternalItem, text: string)
  {
    match item.prefix
    case None => true
    case Some(test) => text in test
  }

  /** The acceptance chain of one rule: length, comparison, prefix. */
  predicate Passes(item: InternalItem, s: Scan)
  {
    && item.matchLength <= |s.window|
    && (item.ignoreCase ==> (s.locale, Candidate(item, s), item.matchString) in s.localeEquals)
    && (!item.ignoreCase ==> Candidate(item, s) == item.matchString)
    && PrefixAccepts(item, PrefixText(item, s))
  }

  /** `items.some(...)` from position `from` on: the first rule that passes, if any. */
  function FirstPassing(items: seq<InternalItem>, s: Scan, from: nat): (r: Option<nat>)
    requires from <= |items|
    ensures r.Some? ==> from <= r.value < |items| && Passes(items[r.value], s)
    ensures r.Some? ==> forall j :: from <= j < r.value ==> !Passes(items[j], s)
    ensures r.None? ==> forall j :: from <= j < |items| ==> !Passes(items[j], s)
    decreases |items| - from
  {
    if from == |items| then None
    else if Passes(items[from], s) then Some(from)
    else FirstPassing(items, s, from + 1)
  }

  /** A rule that passes, with no earlier rule passing, is the one the scan finds. */
  lemma FirstPassingIsLowest(items: seq<InternalItem>, s: Scan, i: nat)
    requires i < |items| && Passes(items[i], s)
    requires forall j :: 0 <= j < i ==> !Passes(items[j], s)
    ensures FirstPassing(items, s, 0) == Some(i)
  {
  }

  /** When no rule passes, the scan finds none. */
  lemma NoneFound(items: seq<InternalItem>, s: Scan)
    requires forall j :: 0 <= j < |items| ==> !Passes(items[j], s)
    ensures FirstPassing(items, s, 0) == None
  {
  }

  /** The result of an edit notification: which rule fired and the engine's cursor afterwards. */
  datatype Firing = NoFire | Fired(rule: nat, currentIndex: nat)

  datatype EditResult = EditResult(text: string, firing: Firing)

  /** The scan an edit runs when it is a user edit at a caret. */
  function ScanOf(options: InternalOptions, longest: Option<nat>, localeEquals: LocaleEquals,
                  text: string, selection: Option<Range>): Scan
  {
    var end := CursorEnd(selection, |text|);
    Scan(text, end, CandidateText(text, end, longest), options.locale, localeEquals)
  }

  /** An edit the engine ignores: not typed by the user, or made over a highlighted range. */
  predicate Ignored(selection: Option<Range>, source: Source)
  {
    source != User || (selection.Some? && selection.value.length != 0)
  }

  /** What firing the rule the scan found does to the document; nothing when no rule was found. */
  function Apply(items: seq<InternalItem>, found: Option<nat>, text: string, end: nat): EditResult
    requires found.Some? ==> found.value < |items| && items[found.value].matchLength <= end <= |text|
  {
    match found
    case None => EditResult(text, NoFire)
    case Some(i) =>
      var m := items[i].matchLength;
      if items[i].removeMatchingText then EditResult(Delete(text, end - m, m), Fired(i, end - m))
      else EditResult(text, Fired(i, end))
  }

  /** The document and firing after one edit notification. */
  function Step(options: InternalOptions, longest: Option<nat>, localeEquals: LocaleEquals,
                text: string, selection: Option<Range>, source: Source): EditResult
    requires InDocument(selection, |text|)
  {
    if Ignored(selection, source) then EditResult(text, NoFire)
    else
      var s := ScanOf(options, longest, localeEquals, text, selection);
      Apply(options.items, FirstPassing(options.items, s, 0), text, s.end)
  }

  /** Ignored edits change nothing and fire nothing. */
  lemma IgnoredEditIsNoOp(options: InternalOptions, longest: Option<nat>, localeEquals: LocaleEquals,
                          text: string, selection: Option<Range>, source: Source)
    requires InDocument(selection, |text|) && Ignored(selection, source)
    ensures Step(options, longest, localeEquals, text, selection, source) == EditResult(text, NoFire)
  {
  }

  /** With no rules, nothing ever fires and the document is never changed. */
  lemma NoRulesNeverFire(options: InternalOptions, localeEquals: LocaleEquals,
                         text: string, selection: Option<Range>, source: Source)
    requires InDocument(selection, |text|) && options.items == []
    ensures Step(options, Longest(options.items), localeEquals, text, selection, source) == EditResult(text, NoFire)
  {
  }

  /** Capping the window at the longest match length never hides a match: a rule fits it exactly when the text before the cursor is long enough. */
  lemma WindowFitsEveryRule(items: seq<InternalItem>, text: string, end: nat, i: nat)
    requires end <= |text| && i < |items|
    ensures items[i].matchLength <= |CandidateText(text, end, Longest(items))| <==> items[i].matchLength <= end
  {
  }

  /**
   * A firing rule is the lowest-numbered rule whose chain passes, and an edit
   * at a caret fires exactly when some rule passes.
   */
  lemma FirstMatchWins(options: InternalOptions, longest: Option<nat>, localeEquals: LocaleEquals,
                       text: string, selection: Option<Range>, source: Source)
    requires InDocument(selection, |text|) && !Ignored(selection, source)
    ensures var s := ScanOf(options, longest, localeEquals, text, selection);
            var f := Step(options, longest, localeEquals, text, selection, source).firing;
            && (f.Fired? <==> exists i :: 0 <= i < |options.items| && Passes(options.items[i], s))
            && (f.Fired? ==> f.rule < |options.items| && Passes(options.items[f.rule], s)
                             && forall j :: 0 <= j < f.rule ==> !Passes(options.items[j], s))
  {
  }

  /**
   * What a passing rule means for the document: the `matchLength` characters
   * right before the cursor equal the match string (exactly, or under the
   * locale comparison), and the prefix test held on the at most
   * `maxPrefixLookback` characters just before them.
   */
  lemma PassingRuleMatchesBeforeCursor(item: InternalItem, s: Scan, longest: Option<nat>)
    requires s.end <= |s.text| && s.window == CandidateText(s.text, s.end, longest)
    requires Passes(item, s)
    ensures item.matchLength <= s.end
    ensures !item.ignoreCase ==> s.text[s.end - item.matchLength..s.end] == item.matchString
    ensures item.ignoreCase ==> (s.locale, s.text[s.end - item.matchLength..s.end], item.matchString) in s.localeEquals
    ensures item.maxPrefixLookback >= 0 ==>
              var p := PrefixRange(s.end, item.matchLength, item.maxPrefixLookback);
              p.length <= item.maxPrefixLookback && PrefixAccepts(item, s.text[p.index..s.end - item.matchLength])
    ensures item.maxPrefixLookback < 0 ==> PrefixAccepts(item, [])
  {
    CandidateIsTextBeforeCursor(item, s, longest);
    if item.maxPrefixLookback >= 0 {
      PrefixTextBeforeCandidate(item, s);
    }
  }

  /** A rule's candidate is the `matchLength` characters just before the cursor. */
  lemma CandidateIsTextBeforeCursor(item: InternalItem, s: Scan, longest: Option<nat>)
    requires s.end <= |s.text| && s.window == CandidateText(s.text, s.end, longest)
    requires item.matchLength <= |s.window|
    ensures item.matchLength <= s.end
    ensures Candidate(item, s) == s.text[s.end - item.matchLength..s.end]
  {
    WindowIsTextBeforeCursor(s.text, s.end, longest);
    SuffixOfTextBeforeCursor(s.text, s.window, s.end, item.matchLength);
  }

  /** A rule's prefix text is the text that ends where its candidate begins. */
  lemma PrefixTextBeforeCandidate(item: InternalItem, s: Scan)
    requires s.end <= |s.text| && item.matchLength <= s.end && item.maxPrefixLookback >= 0
    ensures var p := PrefixRange(s.end, item.matchLength, item.maxPrefixLookback);
            PrefixText(item, s) == s.text[p.index..s.end - item.matchLength]
  {
  }

  /** The candidate window is the text just before the cursor. */
  lemma WindowIsTextBeforeCursor(text: string, end: nat, longest: Option<nat>)
    requires end <= |text|
    ensures var w := CandidateText(text, end, longest); w == text[end - |w|..end]
  {
  }

  /** The last `m` characters of the text just before the cursor are the `m` characters just before it. */
  lemma SuffixOfTextBeforeCursor(text: string, w: string, end: nat, m: nat)
    requires end <= |text| && |w| <= end && w == text[end - |w|..end] && m <= |w|
    ensures w[|w| - m..] == text[end - m..end]
  {
  }

  /** A rule that fired passed its whole chain against the document as it was before the edit. */
  lemma FiredRulePassed(options: InternalOptions, longest: Option<nat>, localeEquals: LocaleEquals,
                        text: string, selection: Option<Range>, source: Source)
    requires InDocument(selection, |text|)
    ensures var r := Step(options, longest, localeEquals, text, selection, source);
            r.firing.Fired? ==>
              !Ignored(selection, source) && r.firing.rule < |options.items|
              && Passes(options.items[r.firing.rule], ScanOf(options, longest, localeEquals, text, selection))
  {
    if !Ignored(selection, source) {
      var s := ScanOf(options, longest, localeEquals, text, selection);
      var f := FirstPassing(options.items, s, 0);
      assert Step(options, longest, localeEquals, text, selection, source) == Apply(options.items, f, text, s.end);
    }
  }

  /**
   * Deletion is exact: a firing rule that removes matching text deletes
   * `[end - matchLength, end)` and nothing else and leaves the cursor at its
   * start; any other outcome leaves the document as it was.
   */
  lemma ExactDeletion(options: InternalOptions, longest: Option<nat>, localeEquals: LocaleEquals,
                      text: string, selection: Option<Range>, source: Source)
    requires InDocument(selection, |text|)
    ensures var r := Step(options, longest, localeEquals, text, selection, source);
            var end := CursorEnd(selection, |text|);
            match r.firing
            case NoFire => r.text == text
            case Fired(i, currentIndex) =>
              i < |options.items| &&
              var m := options.items[i].matchLength;
              if options.items[i].removeMatchingText then
                m <= end <= |text| && r.text == Delete(text, end - m, m) && currentIndex == end - m
              else
                r.text == text && currentIndex == end
  {
    if !Ignored(selection, source) {
      var s := ScanOf(options, longest, localeEquals, text, selection);
      var f := FirstPassing(options.items, s, 0);
      assert Step(options, longest, localeEquals, text, selection, source) == Apply(options.items, f, text, s.end);
    }
  }
}
