/**
 * The `Fire` module object: it normalises its rules once, then reacts to every
 * text change of its editor by looking for a trigger just before the cursor.
 */
module Engine {
  import opened Wrappers
  import opened Rules
  import opened Buffer
  import opened Matching

  class Fire {
    const editor: Editor
    const options: InternalOptions
    const longestItem: Option<nat>
    /** The host's `localeCompare` with base sensitivity, as an equality. */
    const localeEquals: LocaleEquals

    /** The cached longest match length is that of the rules, and the editor's selection lies in its document. */
    ghost predicate Valid()
      reads editor
    {
      longestItem == Longest(options.items) && editor.Valid()
    }

    /** Normalises the rules and caches the longest match length. */
    constructor (editor: Editor, options: Option<FireOptions>, localeEquals: LocaleEquals)
      requires editor.Valid()
      ensures Valid()
      ensures this.editor == editor && this.localeEquals == localeEquals
      ensures this.options == Normalize(options)
      ensures longestItem == Longest(this.options.items)
    {
      this.editor := editor;
      this.localeEquals := localeEquals;
      this.options := Normalize(options);
      this.longestItem := Longest(Normalize(options).items);
    }

    /** Case-insensitive comparison under the configured locale. */
    function EqualsIgnoringCase(text: string, other: string): bool
    {
      (options.locale, text, other) in localeEquals
    }

    /**
     * The test `items.some` applies to one rule before it fires: the window is
     * long enough, its last `matchLength` characters equal the match string
     * (under the locale or exactly), and the prefix window passes the rule's
     * prefix test.
     */
    method Accepts(item: InternalItem, end: nat, candidateText: string) returns (accepted: bool)
      requires end <= |editor.text| && |candidateText| <= end
      ensures accepted == Passes(item, Scan(editor.text, end, candidateText, options.locale, localeEquals))
    {
      if |candidateText| < item.matchLength {
        return false;
      }
      var candidate := candidateText[|candidateText| - item.matchLength..];
      if item.ignoreCase && !EqualsIgnoringCase(candidate, item.matchString) {
        return false;
      }
      if !item.ignoreCase && candidate != item.matchString {
        return false;
      }
      if item.prefix.Some? {
        var window := PrefixRange(end, item.matchLength, item.maxPrefixLookback);
        var prefixText := Slice(editor.text, window.index, window.length);
        if prefixText !in item.prefix.value {
          return false;
        }
      }
      return true;
    }

    /**
     * `items.some(...)` without its side effect: the position of the first rule
     * that `Accepts` accepts, scanning in declaration order.
     */
    method FindRule(end: nat, candidateText: string) returns (found: Option<nat>)
      requires end <= |editor.text| && |candidateText| <= end
      ensures found == FirstPassing(options.items, Scan(editor.text, end, candidateText, options.locale, localeEquals), 0)
    {
      ghost var s := Scan(editor.text, end, candidateText, options.locale, localeEquals);
      for i := 0 to |options.items|
        invariant forall j :: 0 <= j < i ==> !Passes(options.items[j], s)
      {
        var accepted := Accepts(options.items[i], end, candidateText);
        if accepted {
          FirstPassingIsLowest(options.items, s, i);
          return Some(i);
        }
      }
      NoneFound(options.items, s);
      return None;
    }

    /**
     * Handles one text change: ignores edits not made by the user or made over
     * a highlighted range; otherwise lets the first accepted rule fire,
     * deleting its matched text if it asks to.
     */
    method TextChanged(source: Source) returns (result: Firing)
      requires Valid()
      modifies editor
      ensures Valid()
      ensures var step := Step(options, longestItem, localeEquals, old(editor.text), old(editor.selection), source);
              editor.text == step.text && result == step.firing
      ensures if result.Fired? && result.rule < |options.items| && options.items[result.rule].removeMatchingText
              then editor.selection == ShiftSelection(old(editor.selection), result.currentIndex, options.items[result.rule].matchLength)
              else editor.selection == old(editor.selection)
    {
      if source != User {
        return NoFire;
      }
      var range := editor.selection;
      if range.Some? && range.value.length != 0 {
        return NoFire;
      }
      var end := CursorEnd(range, |editor.text|);
      var candidateText := CandidateText(editor.text, end, longestItem);
      var found := FindRule(end, candidateText);
      assert Step(options, longestItem, localeEquals, editor.text, range, source) == Apply(options.items, found, editor.text, end);
      match found
      case None =>
        return NoFire;
      case Some(i) =>
        var currentIndex := end;
        if options.items[i].removeMatchingText {
          editor.DeleteText(end - options.items[i].matchLength, options.items[i].matchLength);
          currentIndex := currentIndex - options.items[i].matchLength;
        }
        return Fired(i, currentIndex);
    }
  }
}
