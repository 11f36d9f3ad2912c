/**
 * Rule normalisation: the `Fire` constructor turns the user's trigger items into
 * internal items with every default resolved and the match length precomputed,
 * and caches the longest match length.
 */
module Rules {
  import opened Wrappers

  /** The callback of a rule. The engine copies it but never calls it. */
  type FireAction = () -> Option<string>

  /** A prefix regular expression, represented by the set of texts its `test` method accepts. */
  type PrefixTest = iset<string>

  /** A trigger rule as the user writes it; `None` is an option left undefined (or null). */
  datatype FireItem = FireItem(
    matchString: string,
    action: FireAction,
    ignoreCase: Option<bool>,
    removeMatchingText: Option<bool>,
    prefix: Option<PrefixTest>,
    maxPrefixLookback: Option<int>)

  /**
   * The constructor's options argument. `items == None` stands for a list that
   * is missing, null, or not an array (has no `map`).
   */
  datatype FireOptions = FireOptions(locale: Option<string>, items: Option<seq<FireItem>>)

  /** A rule with every option resolved. */
  datatype InternalItem = InternalItem(
    matchString: string,
    action: FireAction,
    ignoreCase: bool,
    removeMatchingText: bool,
    prefix: Option<PrefixTest>,
    maxPrefixLookback: int,
    matchLength: nat)

  /** The engine's own copy of the options. */
  datatype InternalOptions = InternalOptions(locale: Option<string>, items: seq<InternalItem>)

  /** Fills in the defaults of one item and precomputes its match length. */
  function Internal(item: FireItem): (r: InternalItem)
    ensures r.matchString == item.matchString && r.action == item.action && r.prefix == item.prefix
    ensures r.matchLength == |r.matchString|
    ensures r.ignoreCase <==> item.ignoreCase != Some(false)
    ensures r.removeMatchingText <==> item.removeMatchingText != Some(false)
    ensures item.maxPrefixLookback.None? ==> r.maxPrefixLookback == 1
    ensures item.maxPrefixLookback.Some? ==> r.maxPrefixLookback == item.maxPrefixLookback.value
  {
    InternalItem(
      item.matchString,
      item.action,
      item.ignoreCase.GetOr(true),
      item.removeMatchingText.GetOr(true),
      item.prefix,
      item.maxPrefixLookback.GetOr(1),
      |item.matchString|)
  }

  /** `items.map(...)`: one internal item per user item, in the same order. */
  function NormalizedItems(items: seq<FireItem>): (r: seq<InternalItem>)
    ensures |r| == |items|
    ensures forall i :: 0 <= i < |items| ==> r[i] == Internal(items[i])
  {
    if items == [] then [] else [Internal(items[0])] + NormalizedItems(items[1..])
  }

  /** The user items the constructor's guard lets through: none unless the list is an array. */
  function UserItems(options: Option<FireOptions>): seq<FireItem>
  {
    if options.Some? && options.value.items.Some? then options.value.items.value else []
  }

  /**
   * The engine's options as the constructor evidently intends them: the locale
   * kept and the items normalised.
   */
  function Normalize(options: Option<FireOptions>): (r: InternalOptions)
    ensures options.Some? ==> r.locale == options.value.locale
    ensures options.None? || options.value.items.None? ==> r.items == []
    ensures |r.items| == |UserItems(options)|
    ensures forall i :: 0 <= i < |r.items| ==> r.items[i] == Internal(UserItems(options)[i])
  {
    InternalOptions(if options.Some? then options.value.locale else None, NormalizedItems(UserItems(options)))
  }

  /**
   * The engine's options as the constructor actually builds them: it starts
   * from `{ items: [] }` and only ever assigns `items`, so the locale is lost.
   */
  function NormalizeAsWritten(options: Option<FireOptions>): (r: InternalOptions)
    ensures r.locale.None?
    ensures r.items == Normalize(options).items
  {
    InternalOptions(None, NormalizedItems(UserItems(options)))
  }

  /** A configured locale never reaches the comparison in the code as written. */
  lemma LocaleDroppedAsWritten()
    ensures var options := Some(FireOptions(Some("tr"), Some([])));
            NormalizeAsWritten(options).locale != options.value.locale
            && Normalize(options).locale == options.value.locale
  {
  }

  function Max(a: nat, b: nat): nat { if a < b then b else a }

  /**
   * `Math.max(...items.map(i => i.matchLength))`. `None` stands for the value
   * of `Math.max()` with no arguments, which is minus infinity.
   */
  function Longest(items: seq<InternalItem>): (r: Option<nat>)
    ensures r.None? <==> items == []
    ensures r.Some? ==> forall i :: 0 <= i < |items| ==> items[i].matchLength <= r.value
    ensures r.Some? ==> exists i :: 0 <= i < |items| && items[i].matchLength == r.value
  {
    if items == [] then None
    else match Longest(items[1..])
      case None => Some(items[0].matchLength)
      case Some(rest) => Some(Max(items[0].matchLength, rest))
  }
}
