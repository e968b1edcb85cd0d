/**
 * Concrete runs of the sidebar's handlers: a startup, a search and an
 * activation run, and three behaviours the handlers show that differ from
 * what one would expect of the list (exactly one active row, a row visible
 * iff its title matches the current query).
 */
module Scenarios {
  import opened Wrappers
  import opened JsString
  import opened Tabs

  const GitHub: Tab := Tab(1, "GitHub", "", "", true)
  const Gmail: Tab := Tab(2, "Gmail", "", "", false)

  /** Startup with [GitHub (active), Gmail]: two rows in that order, the first one active. */
  lemma StartupRendersInOrder(hostname: UrlParser)
    ensures var s := Loaded([GitHub, Gmail], hostname);
            |s| == 2 && s[0].id == 1 && s[1].id == 2
            && s[0].active && !s[1].active && !s[0].hidden && !s[1].hidden
            && s[0].icon == DefaultIcon && s[1].icon == DefaultIcon
  {
  }

  /** "git" occurs in "github" but not in "gmail". */
  lemma GitOccurrences()
    ensures Includes("github", "git")
    ensures !Includes("gmail", "git")
  {
    assert OccursAt("github", "git", 0);
    forall k ensures !OccursAt("gmail", "git", k) {
      if k == 0 {
        assert "gmail"[1] != "git"[1];
      } else if 1 <= k <= 2 {
        assert "gmail"[k] != "git"[0];
      }
    }
  }

  /** Lower-casing the example strings. */
  lemma LoweredExamples()
    ensures ToLower("git") == "git"
    ensures ToLower("GitHub") == "github"
    ensures ToLower("Gmail") == "gmail"
  {
    assert ToLower("GitHub")[0] == LowerChar('G');
    assert ToLower("GitHub")[3] == LowerChar('H');
    assert ToLower("Gmail")[0] == LowerChar('G');
  }

  /** Typing "git" keeps "GitHub" visible and hides "Gmail". */
  lemma SearchGit(hostname: UrlParser)
    ensures var s := Filtered(Loaded([GitHub, Gmail], hostname), "git");
            !s[0].hidden && s[1].hidden
  {
    LoweredExamples();
    GitOccurrences();
  }

  /** Activating tab 2 moves the marker from row 1 to row 2. */
  lemma ActivateGmail(hostname: UrlParser)
    ensures var s := Activated(Loaded([GitHub, Gmail], hostname), 2);
            !s[0].active && s[1].active
  {
    var s := Loaded([GitHub, Gmail], hostname);
    assert IndexOfActive(s) == Some(0);
    assert IndexOfId(s, 2) == Some(1);
  }

  /** A row added while a query hides non-matching titles is shown even if it does not match. */
  lemma AddIgnoresFilter(hostname: UrlParser)
    ensures var s := Filtered(Loaded([GitHub], hostname), "git") + [EntryFor(Gmail, hostname)];
            !s[1].hidden && !Matches(s[1].title, "git")
  {
    LoweredExamples();
    GitOccurrences();
  }

  /** A new tab that arrives active is added without clearing the marker already in the list. */
  lemma AddKeepsOldActive(hostname: UrlParser)
    ensures var s := Loaded([GitHub], hostname) + [EntryFor(Gmail.(active := true), hostname)];
            s[0].active && s[1].active && !AtMostOneActive(s)
  {
  }

  /**
   * Activation clears only the first active row: with two active rows and an
   * id that is not listed, the second stays active.
   */
  lemma ActivateClearsOnlyFirst(hostname: UrlParser)
    ensures var s := Activated(Loaded([GitHub, Gmail.(active := true)], hostname), 3);
            !s[0].active && s[1].active
  {
    var s := Loaded([GitHub, Gmail.(active := true)], hostname);
    assert IndexOfActive(s) == Some(0);
    assert s[0].id != 3 && s[1].id != 3;
  }
}
