/**
 Worked examples: the query "le" over a three-item catalog, and client
 sessions driven only through the handlers' contracts, showing what a caller
 of the widget can conclude without their bodies.
 */
module PillsScenarios {
  import opened Text
  import opened PillsInput

  function Finance(): Item { Item(None, None, "Finance") }
  function Legal(): Item { Item(None, None, "Legal") }
  function Hr(): Item { Item(None, None, "HR") }

  function Catalog(): seq<Item> { [Finance(), Legal(), Hr()] }

  /** A string without the first character of `sub` does not include it. */
  lemma {:induction false} NotIncludedWithoutHead(s: string, sub: string)
    requires sub != "" && sub[0] !in s
    ensures !Includes(s, sub)
  {
    forall k: nat ensures !OccursAt(s, sub, k) {
      if k + |sub| <= |s| { assert s[k..k + |sub|][0] == s[k]; }
    }
  }

  lemma FoldFinance()
    ensures ToLower("Finance") == "finance"
  {
    var t := ToLower("Finance");
    assert t[0] == 'f' && t[1] == 'i' && t[2] == 'n' && t[3] == 'a' && t[4] == 'n' && t[5] == 'c' && t[6] == 'e';
  }

  lemma FoldLegal()
    ensures ToLower("Legal") == "legal"
  {
    var t := ToLower("Legal");
    assert t[0] == 'l' && t[1] == 'e' && t[2] == 'g' && t[3] == 'a' && t[4] == 'l';
  }

  lemma FoldHr()
    ensures ToLower("HR") == "hr"
  {
    var t := ToLower("HR");
    assert t[0] == 'h' && t[1] == 'r';
  }

  lemma FoldLe()
    ensures ToLower("le") == "le"
  {
    var t := ToLower("le");
    assert t[0] == 'l' && t[1] == 'e';
  }

  lemma LeMatchesLegal()
    ensures Matches(Legal(), "le", [])
  {
    FoldLe();
    FoldLegal();
    assert OccursAt("legal", "le", 0);
  }

  lemma LeMissesFinance()
    ensures !Matches(Finance(), "le", [])
  {
    FoldLe();
    FoldFinance();
    NotIncludedWithoutHead("finance", "le");
  }

  lemma LeMissesHr()
    ensures !Matches(Hr(), "le", [])
  {
    FoldLe();
    FoldHr();
    NotIncludedWithoutHead("hr", "le");
  }

  /** Typing "le" offers only "Legal": the match ignores ASCII case. */
  lemma QueryLeOffersLegal()
    ensures FilterItems(Catalog(), "le", []) == [Legal()]
  {
    LeMissesHr();
    assert FilterItems([Hr()], "le", []) == [] by {
      assert [Hr()][1..] == [];
    }
    LeMatchesLegal();
    assert FilterItems([Legal(), Hr()], "le", []) == [Legal()] by {
      assert [Legal(), Hr()][1..] == [Hr()];
    }
    LeMissesFinance();
    assert Catalog()[1..] == [Legal(), Hr()];
  }

  /** On a fresh widget over a non-empty catalog, focus opens the popover
      and every catalog item is offered. */
  method FocusSession(data: seq<Item>)
    requires data != []
  {
    var w := new SelectPills(data, [], None, false);
    w.HandleFocus();
    assert w.data[0].name !in w.Shown();
    assert w.isOpen;
    EmptyQueryOffersAll(data);
    assert w.FilteredItems() == data;
  }

  /** Whatever the catalog, typing a text that is not blank and pressing
      Enter adds the trimmed text, clears the query and closes the popover. */
  method CustomValueSession(data: seq<Item>, text: string)
    requires !AllTrimmable(text)
  {
    var w := new SelectPills(data, [], None, false);
    w.HandleInputChange(text);
    var emitted := w.HandleKeyDown(Enter);
    assert w.selectedPills == [Trim(text)] && emitted == [[Trim(text)]];
    assert w.inputValue == "" && !w.isOpen && w.highlightedIndex == -1;
  }

  /** With the widget disabled a click on a pill removes nothing and reports
      nothing. */
  method DisabledSession(data: seq<Item>) {
    var w := new SelectPills(data, ["Finance"], None, true);
    var emitted := w.ClickBadge("Finance");
    assert w.selectedPills == ["Finance"] && emitted == [];
  }

  /** With two options, ArrowDown from the query box highlights the first;
      ArrowUp from there drops the highlight, after which Enter in the list
      selects nothing. */
  method CursorSession(data: seq<Item>)
    requires |data| == 2
  {
    var w := new SelectPills(data, [], None, false);
    w.HandleFocus();
    assert w.data[0].name !in w.Shown();
    EmptyQueryOffersAll(data);
    var emitted := w.HandleKeyDown(ArrowDown);
    assert w.highlightedIndex == 0;
    emitted := w.HandleRadioKeyDown(ArrowDown);
    assert w.highlightedIndex == 1;
    emitted := w.HandleRadioKeyDown(ArrowDown);
    assert w.highlightedIndex == 1;
    emitted := w.HandleRadioKeyDown(ArrowUp);
    emitted := w.HandleRadioKeyDown(ArrowUp);
    assert w.highlightedIndex == -1;
    emitted := w.HandleRadioKeyDown(Enter);
    assert w.selectedPills == [] && emitted == [];
  }
}
