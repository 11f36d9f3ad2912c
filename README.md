# quill-fire trigger engine, modelled in Dafny

`Fire` is a module for the Quill rich-text editor. It watches what the user types and checks the text just
before the cursor against a list of string triggers. When a trigger matches, it may delete the matched text,
and it stops after the first matching rule. This project models the two parts of `Fire` in `src/index.ts` and
proves properties of them:

- **Rule normalisation** (module `Rules`, file `rules.dfy`). The constructor maps each user `FireItem` to an
  internal item. The map fills in the defaults `ignoreCase = true`, `removeMatchingText = true` and
  `maxPrefixLookback = 1`, and it precomputes `matchLength`. The constructor then caches `longestItem`, the
  largest `matchLength`. A missing options object, or an `items` value that is not an array, gives no rules.
- **Per-edit matching** (module `Matching`, file `matching.dfy`, as pure functions; class `Engine.Fire`,
  file `engine.dfy`, as the imperative handler). `TextChanged` does nothing for edits that are not from the
  user or that come with a highlighted selection. Otherwise it:
  - computes the cursor `end`;
  - reads the window of at most `longestItem` characters before the cursor;
  - scans the rules in declaration order (`FindRule`, a `for` loop that stands for `items.some`). A rule passes when
    the window is long enough, the window's last `matchLength` characters equal `matchString` (under the
    locale comparison or exactly), and its prefix test accepts the prefix window;
  - lets the first passing rule fire. If the rule has `removeMatchingText`, exactly `[end - matchLength, end)`
    is deleted and the engine's `currentIndex` moves back by `matchLength`.

The editor is modelled as an in-memory document (`Buffer.Editor`, file `buffer.dfy`). It holds a
`seq<char>` text and an optional selection `(index, length)`. It offers the reads `getText` (as `Slice`, cut
off at the end of the document) and `deleteText` (as `DeleteText`, specified by `Delete`).

Two library calls cannot be seen from the source, so they stay abstract:
- `localeCompare` with base sensitivity (`Fire.equalsIgnoringCase`) is the constructor parameter
  `localeEquals`, the set of triples `(locale, a, b)` that the comparison deems equal;
- each rule's prefix `RegExp` is represented by the set of texts its `test` method accepts.

`TextChanged` is proved against `Matching.Step`, the specification of one edit notification. The lemmas in
`Matching` then prove what `Step` promises. `Scenarios` (file `scenarios.dfy`) works four concrete edits
through `Step`.

## Model

| member | source | states |
|---|---|---|
| `Rules.Internal` | src/index.ts:61-71 | the internal item copies `matchString`, `action` and `prefix`; `ignoreCase` and `removeMatchingText` are false only when the user set them to false; `maxPrefixLookback` is 1 when unset and the given value otherwise; `matchLength` is the length of `matchString` |
| `Rules.NormalizedItems` | src/index.ts:61-71 | the map keeps count and order: one internal item per user item, and the i-th is the normalisation of the i-th |
| `Rules.UserItems` | src/index.ts:60 | the guard `options && options.items && options.items.map`: the user's items, or none; no contract of its own, used by the contract of `Rules.Normalize` |
| `Rules.Normalize` | src/index.ts:56-72 | missing options or an `items` that is not an array give an empty rule list; otherwise the rules are the normalised user items, in order; the configured locale is kept (the corrected behaviour, see Findings) |
| `Rules.NormalizeAsWritten` | src/index.ts:58-72 | the options as the code builds them: the same rules as `Normalize`, but the locale is always unset |
| `Rules.LocaleDroppedAsWritten` | src/index.ts:58-72 | for options with locale "tr", the code as written loses the locale, while `Normalize` keeps it |
| `Rules.Longest` | src/index.ts:74-76 | `longestItem` is absent (minus infinity) exactly when there are no rules; otherwise it is at least every rule's `matchLength` and equal to one of them |
| `Buffer.Slice` | src/index.ts:99 | `getText(index, length)` returns at most `length` characters: exactly `length` when the range lies inside the document, otherwise the characters up to the end of the document |
| `Buffer.SliceReadsDocument` | src/index.ts:99 | the i-th character `getText(index, length)` returns is the document's character at `index + i` |
| `Buffer.Delete` | src/index.ts:149-153 | deleting `length` characters at `index` shortens the text by `length`, keeps everything before `index` and moves everything after the range up to `index` |
| `Buffer.Editor.DeleteText` | src/index.ts:149-153 | the editor's text becomes `Delete(old text, index, length)` and the selection stays inside the document |
| `Matching.CursorEnd` | src/index.ts:97 | with a caret, `end` is its index and lies inside the document; with no selection it is the position just before the last character, or 0 in an empty document |
| `Matching.WindowStart` | src/index.ts:98 | `0 <= start <= end` and `end - start <= longestItem`; the window is cut short only at the start of the document |
| `Matching.CandidateText` | src/index.ts:97-99 | the fetched window is never longer than `end` or `longestItem`; inside the document it is exactly `min(end, longestItem)` characters long |
| `Matching.PrefixRange` | src/index.ts:128-132 | the prefix window has length at most `maxPrefixLookback` (0 when the lookback is negative); when the candidate fits before the cursor it ends exactly where the candidate begins and is as long as the lookback allows |
| `Matching.Candidate` | src/index.ts:109-111 | the last `matchLength` characters of the window; no contract of its own, characterised by `Matching.CandidateIsTextBeforeCursor` |
| `Matching.PrefixText` | src/index.ts:124-133 | the text given to the prefix test; no contract of its own, characterised by `Matching.PrefixTextBeforeCandidate` and the bounds of `Matching.PrefixRange` |
| `Matching.PrefixAccepts` | src/index.ts:124-142 | the `item.prefix` guard and `item.prefix.test(prefixText)`, with the regular expression abstract as the set of texts it accepts; no contract of its own, characterised by `Matching.PassingRuleMatchesBeforeCursor` |
| `Matching.Passes` | src/index.ts:104-143 | the callback's chain for one rule (length, comparison, prefix); no contract of its own, characterised by `Matching.PassingRuleMatchesBeforeCursor` and `Matching.WindowFitsEveryRule`, and implemented by `Engine.Fire.Accepts` |
| `Matching.FirstPassing` | src/index.ts:101 | the ordered, short-circuiting scan: the result is a passing rule with no passing rule before it, and no result means no rule passes |
| `Matching.FirstPassingIsLowest` | src/index.ts:101 | a passing rule with no passing rule before it is the one the scan returns |
| `Matching.NoneFound` | src/index.ts:101 | when no rule passes, the scan returns nothing |
| `Matching.ScanOf` | src/index.ts:97-99 | the single fetch per edit: `end`, then the window read once and shared by every rule; no contract of its own, characterised by `Matching.CursorEnd`, `Matching.CandidateText`, `Matching.WindowIsTextBeforeCursor` and `Matching.FirstMatchWins` |
| `Matching.Ignored` | src/index.ts:88-93 | a non-user edit or a highlighted selection; no contract of its own, characterised by `Matching.IgnoredEditIsNoOp` and `Matching.FiredRulePassed` |
| `Matching.Apply` | src/index.ts:144-155 | what firing the found rule does to the document and cursor; no contract of its own, characterised by `Matching.ExactDeletion` |
| `Matching.Step` | src/index.ts:84-174 | one edit notification; no contract of its own, characterised by `Matching.IgnoredEditIsNoOp`, `Matching.NoRulesNeverFire`, `Matching.FirstMatchWins`, `Matching.FiredRulePassed` and `Matching.ExactDeletion`, and implemented by `Engine.Fire.TextChanged` |
| `Matching.IgnoredEditIsNoOp` | src/index.ts:88-93 | an edit not from the user, or made with a non-empty selection, leaves the document unchanged and fires nothing |
| `Matching.NoRulesNeverFire` | src/index.ts:58-60 | with no rules, no edit fires or changes the document |
| `Matching.WindowFitsEveryRule` | src/index.ts:98-106 | capping the window at `longestItem` never hides a match: the length check passes exactly when `matchLength <= end` |
| `Matching.FirstMatchWins` | src/index.ts:101-172 | an edit at a caret fires exactly when some rule passes, and the rule that fires is the lowest-numbered passing rule |
| `Matching.CandidateIsTextBeforeCursor` | src/index.ts:104-111 | a rule's candidate is exactly `text[end - matchLength..end]` |
| `Matching.PrefixTextBeforeCandidate` | src/index.ts:124-133 | the prefix text is the document slice that ends where the candidate begins |
| `Matching.WindowIsTextBeforeCursor` | src/index.ts:97-99 | the fetched window equals the document text of the same length that ends at the cursor |
| `Matching.PassingRuleMatchesBeforeCursor` | src/index.ts:104-142 | a passing rule has `matchLength <= end`; its `matchString` equals the text just before the cursor (exactly when case-sensitive, under `localeEquals` otherwise); and its prefix test accepts the at most `maxPrefixLookback` characters before that, or the empty text when `maxPrefixLookback` is negative |
| `Matching.FiredRulePassed` | src/index.ts:101-144 | a rule that fired came from a user edit at a caret and passed its whole chain against the document before the edit |
| `Matching.ExactDeletion` | src/index.ts:144-155 | a firing rule with `removeMatchingText` deletes exactly `[end - matchLength, end)` and leaves `currentIndex = end - matchLength`; a firing rule without it leaves the document unchanged with `currentIndex = end`; no firing leaves the document unchanged |
| `Engine.Fire.constructor` | src/index.ts:56-76 | the engine keeps the options as the corrected `Rules.Normalize` builds them (the configured locale kept, see Findings) and establishes `Valid()`: `longestItem = Longest(items)` and the editor's selection inside its document |
| `Engine.Fire.EqualsIgnoringCase` | src/index.ts:48-54 | the case-insensitive comparison under the engine's locale; it has no contract of its own, and `Engine.Fire.Accepts` ties it to the comparison step of `Matching.Passes` |
| `Engine.Fire.Accepts` | src/index.ts:104-143 | the callback's test for one rule returns true exactly when the rule passes its length, comparison and prefix checks |
| `Engine.Fire.FindRule` | src/index.ts:101-143 | the loop returns exactly the rule `FirstPassing` finds: the first rule in declaration order that `Accepts` accepts, or none |
| `Engine.Fire.TextChanged` | src/index.ts:84-174 | the new text and the firing are those of `Step` on the old text and selection; `Valid()` is kept, and the selection moves only when matched text is deleted. The comparison runs under the configured locale, as in the corrected program of the Findings row; as written, the locale is always unset |
| `Scenarios.BrbIsDeleted` | src/index.ts:61-71 | with every option of the "brb" rule left at its default and any comparison that finds a text equal to itself (`Reflexive`), typing "brb" at caret 6 of "ok brb\n" deletes `[3, 6)` and leaves "ok \n" (the editor's trailing newline kept) with `currentIndex` 3 |
| `Scenarios.SmileAfterLetterDoesNotFire` | src/index.ts:124-142 | ":)" with a whitespace prefix test, typed at caret 3 after a letter, does not fire |
| `Scenarios.SmileAfterSpaceFires` | src/index.ts:124-155 | ":)" with a whitespace prefix test, typed at caret 3 after a space, fires and is deleted |
| `Scenarios.CaseSensitiveRejectsOtherCase` | src/index.ts:120-122 | a case-sensitive "abc" rule does not fire on "ABC" typed at caret 3 |

## Left out

- Quill plumbing: `Quill.register` (src/index.ts:177), the `text-change` subscription (src/index.ts:78) and the `delta`/`oldContents` arguments. An in-memory editor replaces Quill. Quill's own source is not part of this model. `Buffer.ShiftSelection` is this model's stand-in for how the host moves the selection after a deletion.
- The internals of `localeCompare` (src/index.ts:50-52) and of `RegExp.test` (src/index.ts:140). These are library calls with locale and regular-expression semantics, so they are abstract sets, and no case folding is proved. For the same reason no lemma shows "ABC" matching "abc" under case-insensitive comparison.
- Calling a rule's `action` and inserting its result. The code never calls the action or inserts its result: that code is commented out (src/index.ts:157-170). The model follows the code: `action` is copied but never called, and the "brb" scenario ends with "ok ", not with the replacement text.
- `longestItem` with no rules. `Math.max()` with no arguments is minus infinity (src/index.ts:74-76). The model represents it as `None`. The window read then (at start plus infinity) is taken as empty; no rule exists to read it.
- `getText` returning null or a short string for out-of-range reads. `getText` is exact slicing, cut off at the end of the document. The editor keeps its selection inside the document, as Quill does.
- JavaScript number semantics for `maxPrefixLookback`: only integer values are modelled, negative ones included. Characters are Unicode scalar values (Dafny's `char`), not the UTF-16 code units that JavaScript strings count.
- Lengths and offsets for characters outside the Basic Multilingual Plane. JavaScript counts such a character as two code units, so "🙂" has `matchLength` 2 (src/index.ts:69), while the model counts one character. A JavaScript `substring` or `deleteText` can split a surrogate pair; the model cannot express that.
- Stateful prefix patterns. A prefix `RegExp` with the `g` or `y` flag keeps `lastIndex` between calls of `test` (src/index.ts:140), so the same text can get different answers on different edits. The model assumes stateless prefix patterns: a fixed set of accepted texts.
- `localeEquals` is constrained only where a lemma says so: `Scenarios.BrbIsDeleted` requires `Matching.Reflexive` (every text equals itself under every locale), and no other property of `localeCompare` is assumed.
- Exceptions thrown by an `action`, a prefix test or a comparison: these library calls are total functions here.
- `Engine.Fire.TextChanged`: finds the rule first (`FindRule`) and then deletes, where the source deletes inside the `some` callback and then returns true. The two orders give the same result, because the callback stops the scan as soon as it deletes. The model deletes `matchLength` characters where the source deletes `candidateTextItemSpecific.length` characters; the two are equal whenever a rule passes.

## Findings

| source | as written | input that shows it | evidently intended | confidence | as-written member | corrected member |
|---|---|---|---|---|---|---|
| src/index.ts:58-72 | the constructor sets `this.options = { items: [] }` and only ever assigns `items`, so `this.options.locale` is always undefined and `equalsIgnoringCase` (src/index.ts:48-54) always compares under the default locale | options `{ locale: "tr", items: [] }`: the engine's locale is undefined, not "tr" | the configured locale is kept and used by the case-insensitive comparison | high; not executed | `Rules.NormalizeAsWritten` (with `Rules.LocaleDroppedAsWritten`) | `Rules.Normalize` (which `Engine.Fire.constructor` uses, so the engine runs the corrected normalisation) |
