/** Concrete edits worked through the specification of one edit notification. */
module Scenarios {
  import opened Wrappers
  import opened Rules
  import opened Buffer
  import opened Matching

  /** A rule with every option left at its default except case sensitivity. */
  function CaseSensitiveItem(matchString: string, action: FireAction, prefix: Option<PrefixTest>): FireItem
  {
    FireItem(matchString, action, Some(false), None, prefix, None)
  }

  /** `/\s$/` restricted to the space character: the text ends with a space. */
  ghost const EndsWithSpace: PrefixTest := iset text: string | |text| > 0 && text[|text| - 1] == ' '

  /**
   * Typing the last `b` of "brb" in "ok brb" fires a rule with every option
   * left at its default and deletes `[3, 6)`; the action's text is not
   * inserted. Any comparison that finds a text equal to itself accepts it.
   */
  lemma BrbIsDeleted(action: FireAction, localeEquals: LocaleEquals)
    requires Reflexive(localeEquals)
    ensures var options := Normalize(Some(FireOptions(None, Some([FireItem("brb", action, None, None, None, None)]))));
            Step(options, Longest(options.items), localeEquals, "ok brb\n", Some(Range(6, 0)), User)
              == EditResult("ok \n", Fired(0, 3))
  {
    var options := Normalize(Some(FireOptions(None, Some([FireItem("brb", action, None, None, None, None)]))));
    var text := "ok brb\n";
    var s := ScanOf(options, Longest(options.items), localeEquals, text, Some(Range(6, 0)));
    assert |options.items| == 1 && options.items[0] == Internal(FireItem("brb", action, None, None, None, None));
    assert s.window == "brb";
    assert Candidate(options.items[0], s) == "brb";
    assert (s.locale, "brb", "brb") in localeEquals;
    assert Passes(options.items[0], s);
    assert FirstPassing(options.items, s, 0) == Some(0);
    assert text[..3] == "ok " && text[6..] == "\n";
    assert Delete(text, 3, 3) == "ok \n";
  }

  /** ":)" with a whitespace prefix does not fire after a letter. */
  lemma SmileAfterLetterDoesNotFire(action: FireAction, localeEquals: LocaleEquals)
    ensures var options := Normalize(Some(FireOptions(None, Some([CaseSensitiveItem(":)", action, Some(EndsWithSpace))]))));
            Step(options, Longest(options.items), localeEquals, "a:)\n", Some(Range(3, 0)), User) == EditResult("a:)\n", NoFire)
  {
    var options := Normalize(Some(FireOptions(None, Some([CaseSensitiveItem(":)", action, Some(EndsWithSpace))]))));
    var text := "a:)\n";
    var s := ScanOf(options, Longest(options.items), localeEquals, text, Some(Range(3, 0)));
    assert |options.items| == 1 && options.items[0] == Internal(CaseSensitiveItem(":)", action, Some(EndsWithSpace)));
    assert s.end == 3 && s.window == ":)";
    assert Candidate(options.items[0], s) == ":)";
    assert PrefixText(options.items[0], s) == "a";
    assert !PrefixAccepts(options.items[0], "a");
    assert !Passes(options.items[0], s);
    assert FirstPassing(options.items, s, 0) == None;
  }

  /** ":)" with a whitespace prefix fires after a space and is deleted. */
  lemma SmileAfterSpaceFires(action: FireAction, localeEquals: LocaleEquals)
    ensures var options := Normalize(Some(FireOptions(None, Some([CaseSensitiveItem(":)", action, Some(EndsWithSpace))]))));
            Step(options, Longest(options.items), localeEquals, " :)\n", Some(Range(3, 0)), User) == EditResult(" \n", Fired(0, 1))
  {
    var options := Normalize(Some(FireOptions(None, Some([CaseSensitiveItem(":)", action, Some(EndsWithSpace))]))));
    var text := " :)\n";
    var s := ScanOf(options, Longest(options.items), localeEquals, text, Some(Range(3, 0)));
    assert |options.items| == 1 && options.items[0] == Internal(CaseSensitiveItem(":)", action, Some(EndsWithSpace)));
    assert s.end == 3 && s.window == ":)";
    assert Candidate(options.items[0], s) == ":)";
    assert PrefixText(options.items[0], s) == " ";
    assert Passes(options.items[0], s);
    assert FirstPassing(options.items, s, 0) == Some(0);
    assert text[..1] == " " && text[3..] == "\n";
    assert Delete(text, 1, 2) == " \n";
  }

  /** A case-sensitive rule does not fire on the same letters in another case. */
  lemma CaseSensitiveRejectsOtherCase(action: FireAction, localeEquals: LocaleEquals)
    ensures var options := Normalize(Some(FireOptions(None, Some([CaseSensitiveItem("abc", action, None)]))));
            Step(options, Longest(options.items), localeEquals, "ABC\n", Some(Range(3, 0)), User) == EditResult("ABC\n", NoFire)
  {
    var options := Normalize(Some(FireOptions(None, Some([CaseSensitiveItem("abc", action, None)]))));
    var s := ScanOf(options, Longest(options.items), localeEquals, "ABC\n", Some(Range(3, 0)));
    assert |options.items| == 1 && options.items[0] == Internal(CaseSensitiveItem("abc", action, None));
    assert s.window == "ABC";
    assert Candidate(options.items[0], s) == "ABC";
    assert !Passes(options.items[0], s);
    assert FirstPassing(options.items, s, 0) == None;
  }
}
