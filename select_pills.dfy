/**
 The `SelectPills` multi-select input: a catalog of items, a list of selected
 names shown as removable pills, a query box that filters the catalog, a popover
 that is open or closed and a keyboard cursor over the filtered items. Every
 event handler is one atomic method over the four state cells.
 */
module PillsInput {
  import opened Text

  datatype Option<T> = None | Some(value: T)

  /** A catalog entry; `name` is both what is shown and what is matched. */
  datatype Item = Item(id: Option<string>, value: Option<string>, name: string)

  /** `{ name: inputValue.trim() }`, the item the widget builds for a
      free-text entry: no id or value, and a name that is the trimmed query,
      empty exactly when the query is blank. */
  function CustomItem(query: string): (r: Item)
    ensures r.id.None? && r.value.None? && r.name == Trim(query)
    ensures r.name == "" <==> AllTrimmable(query)
  {
    Item(None, None, Trim(query))
  }

  /** `a` is `b` with some elements left out, the rest kept in order. */
  predicate IsSubsequence<T(==)>(a: seq<T>, b: seq<T>)
    decreases |b|
  {
    a == [] ||
    (b != [] && ((a[0] == b[0] && IsSubsequence(a[1..], b[1..])) || IsSubsequence(a, b[1..])))
  }

  lemma {:induction false} SubsequenceLength<T>(a: seq<T>, b: seq<T>)
    requires IsSubsequence(a, b)
    ensures |a| <= |b|
    decreases |b|
  {
    if a != [] {
      if a[0] == b[0] && IsSubsequence(a[1..], b[1..]) {
        SubsequenceLength(a[1..], b[1..]);
      } else {
        SubsequenceLength(a, b[1..]);
      }
    }
  }

  /** The test an item passes to appear among the options: its folded name
      contains the folded query, and its name is not an internal selection.
      A selected name never matches; the empty query matches every unselected
      name; a name containing the query verbatim matches whatever the case. */
  predicate Matches(item: Item, query: string, selected: seq<string>)
    ensures Matches(item, query, selected) ==> item.name !in selected
    ensures query == "" ==> (Matches(item, query, selected) <==> item.name !in selected)
    ensures Includes(item.name, query) && item.name !in selected ==> Matches(item, query, selected)
  {
    IncludesEmpty();
    IncludesFolded(item.name, query);
    assert ToLower("") == "";
    Includes(ToLower(item.name), ToLower(query)) && item.name !in selected
  }

  /** `filteredItems`: exactly the catalog items that match, each as often as
      in the catalog, in catalog order. */
  function FilterItems(data: seq<Item>, query: string, selected: seq<string>): (r: seq<Item>)
    ensures IsSubsequence(r, data)
    ensures forall it :: it in r <==> it in data && Matches(it, query, selected)
    ensures forall it :: multiset(r)[it] == if Matches(it, query, selected) then multiset(data)[it] else 0
  {
    if data == [] then []
    else
      var rest := FilterItems(data[1..], query, selected);
      assert data == [data[0]] + data[1..];
      if Matches(data[0], query, selected) then
        assert ([data[0]] + rest)[1..] == rest;
        [data[0]] + rest
      else
        rest
  }

  /** `selectedPills.filter(pill => pill !== name)`: every occurrence of `name`
      gone, everything else kept with its multiplicity and in order. */
  function Without(pills: seq<string>, name: string): (r: seq<string>)
    ensures IsSubsequence(r, pills)
    ensures multiset(r) == multiset(pills)[name := 0]
    ensures forall p :: p in r <==> p in pills && p != name
  {
    if pills == [] then []
    else
      var rest := Without(pills[1..], name);
      assert pills == [pills[0]] + pills[1..];
      if pills[0] != name then
        assert ([pills[0]] + rest)[1..] == rest;
        [pills[0]] + rest
      else
        rest
  }

  /** `data.some(item => !selection.includes(item.name))`: the open test of
      typing and focus. It holds exactly when the empty query would offer at
      least one option against `selection`. (For a whitespace-only query the
      open test still only asks this, though fewer options may match.) */
  function HasUnselectedItems(data: seq<Item>, selection: seq<string>): (r: bool)
    ensures r <==> FilterItems(data, "", selection) != []
  {
    var r := exists i :: 0 <= i < |data| && data[i].name !in selection;
    assert r ==> FilterItems(data, "", selection) != [] by {
      if r {
        var i :| 0 <= i < |data| && data[i].name !in selection;
        assert Matches(data[i], "", selection);
        assert data[i] in FilterItems(data, "", selection);
      }
    }
    r
  }

  /** The keys the handlers react to; every other key is `OtherKey`. */
  datatype Key = Enter | ArrowDown | ArrowUp | Escape | OtherKey

  class SelectPills {
    /** The catalog (`data`), the controlled selection (`value`) and
        `disabled`: props, fixed for the life of the model. */
    const data: seq<Item>
    const value: Option<seq<string>>
    const disabled: bool

    var inputValue: string
    var selectedPills: seq<string>
    var isOpen: bool
    /** Index into `FilteredItems()`; -1 means no option is highlighted. */
    var highlightedIndex: int

    /** `filteredItems`, recomputed from the current state: catalog items
        only, no more of them than the catalog holds, and exactly those that
        match the current query and internal selection. */
    function FilteredItems(): (r: seq<Item>)
      reads this`inputValue, this`selectedPills
      ensures |r| <= |data|
      ensures forall it :: it in r <==> it in data && Matches(it, inputValue, selectedPills)
      ensures forall it :: it in r ==> it.name !in selectedPills
    {
      var r := FilterItems(data, inputValue, selectedPills);
      SubsequenceLength(r, data);
      r
    }

    /** `value || selectedPills`: a controlled list always wins, even an
        empty one (a JavaScript array is truthy); only without `value` is the
        internal list used. */
    function Shown(): seq<string>
      reads this`selectedPills
    {
      if value.Some? then value.value else selectedPills
    }

    /** The cursor is -1 or indexes an option that is currently offered. */
    ghost predicate Valid()
      reads this
    {
      -1 <= highlightedIndex < |FilteredItems()|
    }

    /** The state every accepted selection leaves behind: empty query, closed
        popover, no highlight. */
    ghost predicate Cleared()
      reads this
    {
      inputValue == "" && !isOpen && highlightedIndex == -1
    }

    constructor (data: seq<Item>, defaultValue: seq<string>, value: Option<seq<string>>, disabled: bool)
      ensures Valid()
      ensures this.data == data && this.value == value && this.disabled == disabled
      ensures selectedPills == (if value.Some? then value.value else defaultValue)
      ensures inputValue == "" && !isOpen && highlightedIndex == -1
    {
      this.data := data;
      this.value := value;
      this.disabled := disabled;
      inputValue := "";
      selectedPills := if value.Some? then value.value else defaultValue;
      isOpen := false;
      highlightedIndex := -1;
    }

    /** `handleInputChange`: store the text, drop the cursor, and open the
        popover when the text is not blank or some catalog name is unselected. */
    method HandleInputChange(newValue: string)
      modifies this
      ensures Valid()
      ensures inputValue == newValue && highlightedIndex == -1
      ensures selectedPills == old(selectedPills)
      ensures isOpen == (Trim(newValue) != "" || HasUnselectedItems(data, Shown()))
    {
      inputValue := newValue;
      highlightedIndex := -1;
      if Trim(newValue) != "" {
        isOpen := true;
      } else {
        isOpen := HasUnselectedItems(data, Shown());
      }
    }

    /** `handleItemSelect`: append the name, clear the query, close the
        popover, drop the cursor and report the new list. */
    method HandleItemSelect(item: Item) returns (emitted: seq<seq<string>>)
      modifies this
      ensures Valid() && Cleared()
      ensures selectedPills == old(selectedPills) + [item.name]
      ensures emitted == [selectedPills]
      ensures forall it :: it in FilteredItems() ==> it.name != item.name
    {
      selectedPills := selectedPills + [item.name];
      inputValue := "";
      isOpen := false;
      highlightedIndex := -1;
      emitted := [selectedPills];
    }

    /** `handleKeyDown` on the query box. */
    method HandleKeyDown(key: Key) returns (emitted: seq<seq<string>>)
      requires Valid()
      modifies this
      ensures Valid()
      // Enter with a blank query does nothing
      ensures key == Enter && Trim(old(inputValue)) == "" ==> unchanged(this) && emitted == []
      // Enter otherwise adds the trimmed query as a custom value
      ensures key == Enter && Trim(old(inputValue)) != "" ==>
        Cleared() && selectedPills == old(selectedPills) + [Trim(old(inputValue))] &&
        emitted == [selectedPills]
      // ArrowDown highlights the first option when the list is open and not empty
      ensures key == ArrowDown ==>
        (highlightedIndex == if old(isOpen) && |old(FilteredItems())| > 0 then 0 else old(highlightedIndex)) &&
        inputValue == old(inputValue) && selectedPills == old(selectedPills) && isOpen == old(isOpen) &&
        emitted == []
      ensures key == Escape ==>
        !isOpen && inputValue == old(inputValue) && selectedPills == old(selectedPills) &&
        highlightedIndex == old(highlightedIndex) && emitted == []
      ensures key == ArrowUp || key == OtherKey ==> unchanged(this) && emitted == []
    {
      emitted := [];
      match key {
        case Enter =>
          if Trim(inputValue) != "" {
            emitted := HandleItemSelect(CustomItem(inputValue));
          }
        case ArrowDown =>
          if isOpen && |FilteredItems()| > 0 {
            highlightedIndex := 0;
          }
        case Escape =>
          isOpen := false;
        case _ =>
      }
    }

    /** `handleRadioKeyDown` on the option list, whose only caller passes the
        current cursor as the index. */
    method HandleRadioKeyDown(key: Key) returns (emitted: seq<seq<string>>)
      requires Valid()
      modifies this
      ensures Valid()
      ensures key == ArrowDown ==>
        (highlightedIndex == if old(highlightedIndex) < |old(FilteredItems())| - 1
                             then old(highlightedIndex) + 1 else old(highlightedIndex)) &&
        inputValue == old(inputValue) && selectedPills == old(selectedPills) && isOpen == old(isOpen) &&
        emitted == []
      ensures key == ArrowUp ==>
        (highlightedIndex == if old(highlightedIndex) > 0 then old(highlightedIndex) - 1 else -1) &&
        inputValue == old(inputValue) && selectedPills == old(selectedPills) && isOpen == old(isOpen) &&
        emitted == []
      // Enter selects the highlighted option, and does nothing when there is none
      ensures key == Enter && 0 <= old(highlightedIndex) ==>
        Cleared() && selectedPills == old(selectedPills) + [old(FilteredItems())[old(highlightedIndex)].name] &&
        emitted == [selectedPills]
      ensures key == Enter && old(highlightedIndex) < 0 ==> unchanged(this) && emitted == []
      ensures key == Escape ==>
        !isOpen && inputValue == old(inputValue) && selectedPills == old(selectedPills) &&
        highlightedIndex == old(highlightedIndex) && emitted == []
      ensures key == OtherKey ==> unchanged(this) && emitted == []
    {
      emitted := [];
      var index := highlightedIndex;
      var filtered := FilteredItems();
      match key {
        case ArrowDown =>
          if index < |filtered| - 1 {
            highlightedIndex := index + 1;
          }
        case ArrowUp =>
          if index > 0 {
            highlightedIndex := index - 1;
          } else {
            highlightedIndex := -1;
          }
        case Enter =>
          if 0 <= index < |filtered| {
            emitted := HandleItemSelect(filtered[index]);
          }
        case Escape =>
          isOpen := false;
        case OtherKey =>
      }
    }

    /** `handlePillRemove`: drop every occurrence of the name and report the
        new list; the query, the popover and the cursor stay as they are. With
        a controlled `value` the pills shown do not change, while the internal
        list and so the options do. */
    method HandlePillRemove(pill: string) returns (emitted: seq<seq<string>>)
      requires Valid()
      modifies this
      ensures Valid()
      ensures selectedPills == Without(old(selectedPills), pill) && emitted == [selectedPills]
      ensures inputValue == old(inputValue) && isOpen == old(isOpen) &&
              highlightedIndex == old(highlightedIndex)
      ensures IsSubsequence(old(FilteredItems()), FilteredItems())
      ensures Shown() == if value.Some? then old(Shown()) else selectedPills
    {
      ghost var before := FilteredItems();
      selectedPills := Without(selectedPills, pill);
      FilterAntitone(data, inputValue, old(selectedPills), selectedPills);
      SubsequenceLength(before, FilteredItems());
      emitted := [selectedPills];
    }

    /** A click on a pill's badge removes it unless the widget is disabled. */
    method ClickBadge(pill: string) returns (emitted: seq<seq<string>>)
      requires Valid()
      modifies this
      ensures Valid()
      ensures disabled ==> unchanged(this) && emitted == []
      ensures !disabled ==>
        selectedPills == Without(old(selectedPills), pill) && emitted == [selectedPills] &&
        inputValue == old(inputValue) && isOpen == old(isOpen) &&
        highlightedIndex == old(highlightedIndex)
    {
      emitted := [];
      if !disabled {
        emitted := HandlePillRemove(pill);
      }
    }

    /** A click on a pill's remove button, which exists only when the widget is
        not disabled. The click reaches the button's handler and then the
        badge's; both were built from the same list, so the list is reported
        twice and the state is that of one removal. */
    method ClickRemoveButton(pill: string) returns (emitted: seq<seq<string>>)
      requires Valid()
      requires !disabled
      modifies this
      ensures Valid()
      ensures selectedPills == Without(old(selectedPills), pill) &&
              emitted == [selectedPills, selectedPills]
      ensures inputValue == old(inputValue) && isOpen == old(isOpen) &&
              highlightedIndex == old(highlightedIndex)
    {
      var pills := Without(selectedPills, pill);
      FilterAntitone(data, inputValue, selectedPills, pills);
      SubsequenceLength(FilteredItems(), FilterItems(data, inputValue, pills));
      selectedPills := pills;
      emitted := [pills, pills];
    }

    /** `handleOpenChange`: the popover's own request to open or close. */
    method HandleOpenChange(open: bool)
      requires Valid()
      modifies this
      ensures Valid()
      ensures isOpen == open
      ensures inputValue == old(inputValue) && selectedPills == old(selectedPills) &&
              highlightedIndex == old(highlightedIndex)
    {
      isOpen := open;
    }

    /** Focus on the query box opens the popover when some catalog name is
        unselected or the query is not blank; it never closes it. */
    method HandleFocus()
      requires Valid()
      modifies this
      ensures Valid()
      ensures isOpen == (old(isOpen) || HasUnselectedItems(data, Shown()) || Trim(inputValue) != "")
      ensures inputValue == old(inputValue) && selectedPills == old(selectedPills) &&
              highlightedIndex == old(highlightedIndex)
    {
      if HasUnselectedItems(data, Shown()) || Trim(inputValue) != "" {
        isOpen := true;
      }
    }

    /** The "add custom value" hint under an empty option list: a click
        selects the trimmed query when it is not blank. */
    method ClickCustomHint() returns (emitted: seq<seq<string>>)
      requires Valid()
      modifies this
      ensures Valid()
      ensures Trim(old(inputValue)) == "" ==> unchanged(this) && emitted == []
      ensures Trim(old(inputValue)) != "" ==>
        Cleared() && selectedPills == old(selectedPills) + [Trim(old(inputValue))] &&
        emitted == [selectedPills]
    {
      emitted := [];
      if Trim(inputValue) != "" {
        emitted := HandleItemSelect(CustomItem(inputValue));
      }
    }
  }

  /** Fewer selected names never hide an option: with `loose` selecting no
      name that `strict` does not, the options under `strict` appear, in
      order, among those under `loose`. */
  lemma {:induction false} FilterAntitone(data: seq<Item>, query: string, strict: seq<string>, loose: seq<string>)
    requires forall p :: p in loose ==> p in strict
    ensures IsSubsequence(FilterItems(data, query, strict), FilterItems(data, query, loose))
    decreases |data|
  {
    if data != [] {
      FilterAntitone(data[1..], query, strict, loose);
      var a := FilterItems(data[1..], query, strict);
      var b := FilterItems(data[1..], query, loose);
      if Matches(data[0], query, strict) {
        assert Matches(data[0], query, loose);
        assert ([data[0]] + a)[1..] == a && ([data[0]] + b)[1..] == b;
      } else if Matches(data[0], query, loose) {
        assert ([data[0]] + b)[1..] == b;
      }
    } else {
      assert FilterItems(data, query, strict) == [];
    }
  }

  /** Removing a name that is absent leaves the list as it is. */
  lemma {:induction false} WithoutAbsent(pills: seq<string>, name: string)
    requires name !in pills
    ensures Without(pills, name) == pills
    decreases |pills|
  {
    if pills != [] {
      WithoutAbsent(pills[1..], name);
      assert [pills[0]] + pills[1..] == pills;
    }
  }

  /** Removing the same name twice is removing it once, so the doubled report
      of the remove button carries the list a second removal would give. */
  lemma WithoutIdempotent(pills: seq<string>, name: string)
    ensures Without(Without(pills, name), name) == Without(pills, name)
  {
    WithoutAbsent(Without(pills, name), name);
  }

  /** Selecting a name that was not selected and then removing it restores
      the selection exactly. */
  lemma {:induction false} RemoveAfterSelect(pills: seq<string>, name: string)
    requires name !in pills
    ensures Without(pills + [name], name) == pills
    decreases |pills|
  {
    if pills == [] {
      assert Without([name], name) == Without([name][1..], name);
    } else {
      assert (pills + [name])[0] == pills[0];
      assert (pills + [name])[1..] == pills[1..] + [name];
      RemoveAfterSelect(pills[1..], name);
      assert [pills[0]] + pills[1..] == pills;
    }
  }

  /** With an empty query the options are the catalog minus the selected
      names, each item as often as in the catalog, in catalog order. */
  lemma FilterEmptyQuery(data: seq<Item>, selected: seq<string>)
    ensures IsSubsequence(FilterItems(data, "", selected), data)
    ensures forall it :: multiset(FilterItems(data, "", selected))[it] ==
                         if it.name in selected then 0 else multiset(data)[it]
  {
    forall it: Item ensures Matches(it, "", selected) <==> it.name !in selected {
      assert ToLower("") == "";
      IncludesEmpty();
    }
  }

  /** With no selection and an empty query the whole catalog is offered. */
  lemma {:induction false} EmptyQueryOffersAll(data: seq<Item>)
    ensures FilterItems(data, "", []) == data
    decreases |data|
  {
    if data != [] {
      assert ToLower("") == "";
      IncludesEmpty();
      EmptyQueryOffersAll(data[1..]);
      assert [data[0]] + data[1..] == data;
    }
  }
}
