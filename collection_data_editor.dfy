/**
 * The collection data editor window's sidebar state: the database's item list,
 * the cached ID names, the filtered list with its parallel names, the filter text
 * and the filter in effect, the selection, the entry loaded into the editor pane
 * and which sidebar and editor views are drawn. In the window these are static
 * fields updated by event handlers; here they are the fields of one object.
 */
module CollectionDataEditor {
  import opened Wrappers
  import opened Lists
  import opened CollectionFilter

  /** What the sidebar draws (`dDrawSidebarContent`). */
  datatype SidebarContent = ShowFiltering | ShowNoResult | ShowDatabaseEmpty | DrawSelections

  /** What the editor pane draws (`dDrawEditorContent`). */
  datatype EditorContent = Filtering | NoSelection | DrawEditor

  /** The exceptions a handler can stop with. */
  datatype Fault = IndexOutOfRange | NullEntry

  /** How a handler ends: normally, or by throwing. */
  datatype Outcome = Done | Failed(fault: Fault)

  /** `List.Remove(entryCache)`: removing `null` removes nothing. */
  function Without(s: seq<EntryId>, entry: Option<EntryId>): (r: seq<EntryId>)
    ensures forall x :: x in r ==> x in s
    ensures entry.None? ==> r == s
  {
    match entry
    case None => s
    case Some(e) => RemoveFirst(s, e)
  }

  /**
   * The loop of `FilterWorker`: appends to `start` every entry whose ID contains
   * `f`, in order, and collects their IDs.
   */
  method AppendMatching(entries: seq<EntryId>, itemID: map<EntryId, string>, f: string, start: seq<EntryId>)
    returns (list: seq<EntryId>, names: seq<string>)
    requires Known(entries, itemID)
    ensures list == start + Matching(entries, itemID, f)
    ensures names == IDsOf(Matching(entries, itemID, f), itemID)
  {
    list, names := start, [];
    ghost var matched: seq<EntryId> := [];
    var i := 0;
    while i < |entries|
      invariant 0 <= i <= |entries|
      invariant matched == Matching(entries[..i], itemID, f)
      invariant list == start + matched
      invariant names == IDsOf(matched, itemID)
    {
      Snoc(entries, i, itemID, f);
      var entry := entries[i];
      if Contains(itemID[entry], f) {
        IDsOfSnoc(matched, entry, itemID);
        matched := matched + [entry];
        list := list + [entry];
        names := names + [itemID[entry]];
      }
      i := i + 1;
    }
    assert entries[..i] == entries;
  }

  class DataEditor {
    var itemList: seq<EntryId>                 // `databaseCache.itemList`
    var itemID: map<EntryId, string>           // the `itemID` field of every entry asset
    var itemNamesCache: seq<string>
    var filteredList: seq<EntryId>
    var filteredItemNamesCache: seq<string>
    var filter: string
    var activeFilter: string
    var selected: int
    var selectedOld: int
    var entryCache: Option<EntryId>            // `None` once the entry is destroyed or before one is loaded
    var sidebar: SidebarContent
    var editorContent: EditorContent

    /** Every entry the editor refers to exists; database entries are distinct; a selection was made. */
    ghost predicate Valid()
      reads this
    {
      && Known(itemList, itemID)
      && Distinct(itemList)
      && Known(filteredList, itemID)
      && (entryCache.Some? ==> entryCache.value in itemID)
      && selected >= 0
    }

    /** The views `OnFilteringDone` picks for the current filtered list. */
    ghost predicate ShowsFilterResult()
      reads this
    {
      if |filteredList| == 0 then sidebar == ShowNoResult && editorContent == NoSelection
      else sidebar == DrawSelections && editorContent == DrawEditor
    }

    /**
     * What the sidebar shows agrees with the editor pane: the names are parallel to
     * the filtered list, the selection is in range and the highlighted entry is the
     * one loaded.
     */
    ghost predicate HighlightedIsLoaded()
      reads this
    {
      && |filteredItemNamesCache| == |filteredList|
      && Distinct(filteredList)
      && 0 <= selected < |filteredList|
      && entryCache == Some(filteredList[selected])
    }

    /**
     * The window opened on a loaded database: the static initial values
     * (`filter`, `activeFilter` empty, `selected == -1`) followed by the first
     * `CheckInit`, which takes the item list as the filtered list, caches the
     * names, chooses the selection views, turns `selected` into 0 and loads the
     * first entry if there is one.
     */
    constructor Open(database: seq<EntryId>, ids: map<EntryId, string>)
      requires Known(database, ids) && Distinct(database)
      ensures Valid()
      ensures itemList == database && itemID == ids
      ensures itemNamesCache == IDsOf(database, ids) && filteredItemNamesCache == itemNamesCache
      ensures filteredList == database
      ensures filter == "" && activeFilter == ""
      ensures selected == 0 && selectedOld == 0
      ensures sidebar == DrawSelections
      ensures database != [] ==> entryCache == Some(database[0]) && editorContent == DrawEditor
      ensures database == [] ==> entryCache == None && editorContent == NoSelection
    {
      itemList := database;
      itemID := ids;
      itemNamesCache := [];
      filteredItemNamesCache := [];
      filteredList := database;
      filter := "";
      activeFilter := "";
      selected := -1;
      selectedOld := 0;
      entryCache := None;
      sidebar := DrawSelections;
      editorContent := DrawEditor;
      new;
      CacheItemNames();
      filteredItemNamesCache := itemNamesCache;
      selected := 0;
      if |filteredList| > 0 {
        entryCache := Some(filteredList[selected]);
        editorContent := DrawEditor;
      } else {
        editorContent := NoSelection;
      }
    }

    /** `CacheItemNames`: one name per database entry, entry `k`'s `itemID` at `k`. */
    method CacheItemNames()
      requires Known(itemList, itemID)
      modifies this`itemNamesCache
      ensures itemNamesCache == IDsOf(itemList, itemID)
      ensures |itemNamesCache| == |itemList|
      ensures forall k :: 0 <= k < |itemList| ==> itemNamesCache[k] == itemID[itemList[k]]
    {
      itemNamesCache := [];
      var i := 0;
      while i < |itemList|
        invariant 0 <= i <= |itemList|
        invariant itemNamesCache == IDsOf(itemList[..i], itemID)
      {
        Snoc(itemList, i, itemID, "");
        itemNamesCache := itemNamesCache + [itemID[itemList[i]]];
        i := i + 1;
      }
      assert itemList[..i] == itemList;
      IDsOfAt(itemList, itemID);
    }

    /** `OnFilteringBegin`: both panes show that filtering is under way. */
    method OnFilteringBegin()
      modifies this`sidebar, this`editorContent
      ensures sidebar == ShowFiltering && editorContent == Filtering
    {
      sidebar := ShowFiltering;
      editorContent := Filtering;
    }

    /** `OnFilteringDone`: "no result" exactly when the filtered list is empty. */
    method OnFilteringDone()
      modifies this`sidebar, this`editorContent
      ensures ShowsFilterResult()
    {
      if |filteredList| == 0 {
        sidebar := ShowNoResult;
        editorContent := NoSelection;
      } else {
        sidebar := DrawSelections;
        editorContent := DrawEditor;
      }
    }

    /**
     * `FilterWorker`: the entries whose ID contains the filter, in database order,
     * with their names in parallel. An empty filter would first copy the whole
     * list and then append every entry again, since every ID contains "".
     */
    method FilterWorker(idFilter: string)
      requires Valid()
      modifies this`sidebar, this`editorContent, this`filteredList, this`filteredItemNamesCache, this`activeFilter
      ensures Valid()
      ensures filteredList == (if idFilter == "" then itemList else []) + Matching(itemList, itemID, idFilter)
      ensures filteredItemNamesCache == IDsOf(Matching(itemList, itemID, idFilter), itemID)
      ensures activeFilter == idFilter
      ensures ShowsFilterResult()
    {
      OnFilteringBegin();
      var start: seq<EntryId>;
      if idFilter == "" {
        start := itemList;
      } else {
        start := [];
      }
      filteredList, filteredItemNamesCache := AppendMatching(itemList, itemID, idFilter, start);
      MatchingKnown(itemList, itemID, idFilter);
      activeFilter := idFilter;
      OnFilteringDone();
    }

    /**
     * `OnFilterFieldChanged`: afterwards the filter in effect is the filter text.
     * An empty text shows the whole database (and resets the selection when a
     * filter was in effect); a new non-empty text runs `FilterWorker` and resets
     * the selection; an unchanged text changes nothing.
     */
    method OnFilterFieldChanged()
      requires Valid()
      modifies this`sidebar, this`editorContent, this`filteredList, this`filteredItemNamesCache, this`activeFilter, this`selected
      ensures Valid()
      ensures activeFilter == filter
      ensures if filter == "" then
          && filteredList == itemList && filteredItemNamesCache == itemNamesCache && ShowsFilterResult()
          && selected == (if old(activeFilter) != "" then 0 else old(selected))
        else if filter != old(activeFilter) then
          && filteredList == Matching(itemList, itemID, filter)
          && filteredItemNamesCache == IDsOf(filteredList, itemID)
          && selected == 0 && ShowsFilterResult()
        else
          && filteredList == old(filteredList) && filteredItemNamesCache == old(filteredItemNamesCache)
          && selected == old(selected) && sidebar == old(sidebar) && editorContent == old(editorContent)
    {
      if filter == "" {
        filteredList := itemList;
        filteredItemNamesCache := itemNamesCache;
        OnFilteringDone();
      }
      if filter != activeFilter && filter == "" {
        filteredList := itemList;
        filteredItemNamesCache := itemNamesCache;
        selected := 0;
        activeFilter := filter;
        OnFilteringDone();
      } else if activeFilter != filter {
        assert filter != "";   // the worker is reached with a non-empty filter only
        FilterWorker(filter);
        selected := 0;
      }
    }

    /** `ForceChangeFilterValue`: sets the filter text, then handles it as an edit of the field. */
    method ForceChangeFilterValue(filterValue: string)
      requires Valid()
      modifies this`filter, this`sidebar, this`editorContent, this`filteredList, this`filteredItemNamesCache,
               this`activeFilter, this`selected
      ensures Valid()
      ensures filter == filterValue && activeFilter == filterValue
      ensures if filterValue == "" then
          && filteredList == itemList && filteredItemNamesCache == itemNamesCache && ShowsFilterResult()
          && selected == (if old(activeFilter) != "" then 0 else old(selected))
        else if filterValue != old(activeFilter) then
          && filteredList == Matching(itemList, itemID, filterValue)
          && filteredItemNamesCache == IDsOf(filteredList, itemID)
          && selected == 0 && ShowsFilterResult()
        else
          && filteredList == old(filteredList) && filteredItemNamesCache == old(filteredItemNamesCache)
          && selected == old(selected) && sidebar == old(sidebar) && editorContent == old(editorContent)
    {
      filter := filterValue;
      OnFilterFieldChanged();
    }

    /**
     * `OnAddNewButtonClicked`: appends a fresh entry named "New Item", clears the
     * filter, and selects and loads the new entry, the last of the database.
     */
    method OnAddNewButtonClicked(newEntry: EntryId)
      requires Valid()
      requires newEntry !in itemID   // a newly created asset
      modifies this`itemList, this`itemID, this`itemNamesCache, this`filter, this`activeFilter, this`filteredList,
               this`filteredItemNamesCache, this`selected, this`entryCache, this`sidebar, this`editorContent
      ensures Valid()
      ensures itemList == old(itemList) + [newEntry] && itemID == old(itemID)[newEntry := "New Item"]
      ensures itemNamesCache == IDsOf(itemList, itemID)
      ensures filter == "" && activeFilter == ""
      ensures filteredList == itemList && filteredItemNamesCache == itemNamesCache
      ensures selected == |itemList| - 1 && entryCache == Some(newEntry)
      ensures sidebar == DrawSelections && editorContent == DrawEditor
      ensures HighlightedIsLoaded()
    {
      DistinctSnoc(itemList, newEntry);
      itemID, itemList := itemID[newEntry := "New Item"], itemList + [newEntry];
      CacheItemNames();
      ForceChangeFilterValue("");
      selected, entryCache := |itemList| - 1, Some(newEntry);
      editorContent, sidebar := DrawEditor, DrawSelections;
    }

    /**
     * The end of `OnDeleteSelectedButtonClicked`, once the entry is gone: the
     * database names are cached again; when entries remain in view the selection
     * is moved back if it fell off the end and that entry is loaded (indexing the
     * filtered list throws if it is still out of range); otherwise the empty view
     * is shown, or the filter is cleared if one was in effect.
     */
    method ShowAfterRemoval() returns (outcome: Outcome)
      requires Valid() && entryCache == None
      modifies this`itemNamesCache, this`filter, this`activeFilter, this`filteredList,
               this`filteredItemNamesCache, this`selected, this`entryCache, this`sidebar, this`editorContent
      ensures Valid()
      ensures itemNamesCache == IDsOf(itemList, itemID) && |itemNamesCache| == |itemList|
      ensures |old(filteredList)| > 0 ==>
        && filteredList == old(filteredList) && filteredItemNamesCache == old(filteredItemNamesCache)
        && filter == old(filter) && activeFilter == old(activeFilter)
        && sidebar == old(sidebar) && editorContent == old(editorContent)
        && selected == (if old(selected) >= |filteredList| then old(selected) - 1 else old(selected))
        && (outcome == Done <==> selected < |filteredList|)
        && (outcome == Done ==> entryCache == Some(filteredList[selected]))
        && (outcome != Done ==> outcome == Failed(IndexOutOfRange) && entryCache == None)
      ensures |old(filteredList)| == 0 ==> outcome == Done && entryCache == None
      ensures |old(filteredList)| == 0 && old(activeFilter) == "" ==>
        && filteredList == [] && filteredItemNamesCache == old(filteredItemNamesCache)
        && filter == old(filter) && activeFilter == old(activeFilter) && selected == old(selected)
        && sidebar == ShowDatabaseEmpty && editorContent == NoSelection
      ensures |old(filteredList)| == 0 && old(activeFilter) != "" ==>
        && filter == "" && activeFilter == "" && selected == 0
        && filteredList == itemList && filteredItemNamesCache == itemNamesCache && ShowsFilterResult()
    {
      CacheItemNames();
      outcome := Done;
      if |filteredList| > 0 {
        if selected >= |filteredList| {
          selected := selected - 1;
        }
        if selected >= |filteredList| {
          return Failed(IndexOutOfRange);
        }
        entryCache := Some(filteredList[selected]);
      } else {
        if activeFilter == "" {
          sidebar, editorContent := ShowDatabaseEmpty, NoSelection;
        } else {
          ForceChangeFilterValue("");
        }
      }
    }

    /**
     * `OnDeleteSelectedButtonClicked`: removes the LOADED entry from the filtered
     * list and the database, and the name at the selection from the filtered
     * names, then shows what is left (`ShowAfterRemoval`). `RemoveAt` throws when
     * the selection is out of range.
     */
    method OnDeleteSelectedButtonClicked() returns (outcome: Outcome)
      requires Valid()
      modifies this`itemList, this`itemNamesCache, this`filter, this`activeFilter, this`filteredList,
               this`filteredItemNamesCache, this`selected, this`entryCache, this`sidebar, this`editorContent
      ensures Valid()
      ensures old(selected) >= |old(filteredItemNamesCache)| ==>
        && outcome == Failed(IndexOutOfRange)
        && filteredList == Without(old(filteredList), old(entryCache))
        && itemList == old(itemList) && filteredItemNamesCache == old(filteredItemNamesCache)
        && itemNamesCache == old(itemNamesCache) && entryCache == old(entryCache) && selected == old(selected)
        && filter == old(filter) && activeFilter == old(activeFilter)
        && sidebar == old(sidebar) && editorContent == old(editorContent)
      ensures old(selected) < |old(filteredItemNamesCache)| ==>
        && itemList == Without(old(itemList), old(entryCache))
        && itemNamesCache == IDsOf(itemList, itemID)
      ensures outcome == Done && |filteredList| > 0 ==> 0 <= selected < |filteredList|
      ensures outcome == Done && entryCache.Some? ==> selected < |filteredList| && entryCache == Some(filteredList[selected])
      ensures old(selected) < |old(filteredItemNamesCache)| && |Without(old(filteredList), old(entryCache))| > 0 ==>
        && filteredList == Without(old(filteredList), old(entryCache))
        && filteredItemNamesCache == RemoveAt(old(filteredItemNamesCache), old(selected))
        && selected == (if old(selected) >= |filteredList| then old(selected) - 1 else old(selected))
        && filter == old(filter) && activeFilter == old(activeFilter)
        && sidebar == old(sidebar) && editorContent == old(editorContent)
        && (outcome == Done <==> selected < |filteredList|)
        && (outcome == Done ==> entryCache == Some(filteredList[selected]))
        && (outcome != Done ==> outcome == Failed(IndexOutOfRange) && entryCache == None)
      ensures old(selected) < |old(filteredItemNamesCache)| && |Without(old(filteredList), old(entryCache))| == 0 ==>
        && outcome == Done && entryCache == None
        && (old(activeFilter) == "" ==>
              && filteredList == [] && filteredItemNamesCache == RemoveAt(old(filteredItemNamesCache), old(selected))
              && filter == old(filter) && activeFilter == old(activeFilter) && selected == old(selected)
              && sidebar == ShowDatabaseEmpty && editorContent == NoSelection)
        && (old(activeFilter) != "" ==>
              && filter == "" && activeFilter == "" && selected == 0
              && filteredList == itemList && filteredItemNamesCache == itemNamesCache && ShowsFilterResult())
      ensures old(HighlightedIsLoaded()) ==>
        && outcome == Done
        && itemList == RemoveFirst(old(itemList), old(filteredList)[old(selected)])
        && (|old(filteredList)| > 1 ==> filteredList == RemoveAt(old(filteredList), old(selected)) && HighlightedIsLoaded())
    {
      ghost var wasLoaded := HighlightedIsLoaded();
      if wasLoaded {
        RemoveFirstAt(filteredList, selected);
        RemoveFirstDistinct(filteredList, filteredList[selected]);
      }
      filteredList := Without(filteredList, entryCache);
      if selected >= |filteredItemNamesCache| {
        return Failed(IndexOutOfRange);
      }
      filteredItemNamesCache := RemoveAt(filteredItemNamesCache, selected);
      if entryCache.Some? {
        RemoveFirstDistinct(itemList, entryCache.value);
      }
      // `DestroyImmediate`: the destroyed asset compares equal to null
      itemList, entryCache := Without(itemList, entryCache), None;
      outcome := ShowAfterRemoval();
    }

    /**
     * Deleting the HIGHLIGHTED entry, `filteredList[selected]`, from both lists
     * and its name from the filtered names; the rest is as in
     * `OnDeleteSelectedButtonClicked`.
     */
    method DeleteHighlightedEntry() returns (outcome: Outcome, deleted: Option<EntryId>)
      requires Valid()
      modifies this`itemList, this`itemNamesCache, this`filter, this`activeFilter, this`filteredList,
               this`filteredItemNamesCache, this`selected, this`entryCache, this`sidebar, this`editorContent
      ensures Valid()
      ensures outcome == Done <==> old(selected) < |old(filteredList)| && old(selected) < |old(filteredItemNamesCache)|
      ensures outcome == Done ==>
        && deleted == Some(old(filteredList)[old(selected)])
        && itemList == RemoveFirst(old(itemList), deleted.value)
        && deleted.value !in itemList
        && itemNamesCache == IDsOf(itemList, itemID)
      ensures outcome == Done && |old(filteredList)| > 1 ==>
        && filteredList == RemoveAt(old(filteredList), old(selected))
        && filteredItemNamesCache == RemoveAt(old(filteredItemNamesCache), old(selected))
        && selected == (if old(selected) >= |filteredList| then old(selected) - 1 else old(selected))
        && entryCache == Some(filteredList[selected])
        && filter == old(filter) && activeFilter == old(activeFilter)
        && sidebar == old(sidebar) && editorContent == old(editorContent)
      ensures outcome == Done && |old(filteredList)| == 1 ==>
        && entryCache == None
        && (old(activeFilter) == "" ==>
              && filteredList == [] && filteredItemNamesCache == RemoveAt(old(filteredItemNamesCache), old(selected))
              && filter == old(filter) && activeFilter == old(activeFilter) && selected == old(selected)
              && sidebar == ShowDatabaseEmpty && editorContent == NoSelection)
        && (old(activeFilter) != "" ==>
              && filter == "" && activeFilter == "" && selected == 0
              && filteredList == itemList && filteredItemNamesCache == itemNamesCache && ShowsFilterResult())
      ensures outcome == Done && |old(filteredItemNamesCache)| == |old(filteredList)| ==>
        |filteredItemNamesCache| == |filteredList|
      ensures outcome == Done && |filteredList| > 0 ==> 0 <= selected < |filteredList|
      ensures outcome == Done && entryCache.Some? ==> selected < |filteredList| && entryCache == Some(filteredList[selected])
      ensures outcome != Done ==>
        && outcome == Failed(IndexOutOfRange) && deleted == None
        && itemList == old(itemList) && itemNamesCache == old(itemNamesCache)
        && filteredList == old(filteredList) && filteredItemNamesCache == old(filteredItemNamesCache)
        && entryCache == old(entryCache) && selected == old(selected)
        && filter == old(filter) && activeFilter == old(activeFilter)
        && sidebar == old(sidebar) && editorContent == old(editorContent)
    {
      if !(selected < |filteredList| && selected < |filteredItemNamesCache|) {
        return Failed(IndexOutOfRange), None;
      }
      var doomed := filteredList[selected];
      RemoveAtKeeps(filteredList, selected);
      filteredList, filteredItemNamesCache := RemoveAt(filteredList, selected), RemoveAt(filteredItemNamesCache, selected);
      RemoveFirstDistinct(itemList, doomed);
      itemList, entryCache := RemoveFirst(itemList, doomed), None;
      deleted := Some(doomed);
      outcome := ShowAfterRemoval();
    }

    /**
     * The `itemID` text field of the editor pane writes the loaded entry's ID, and
     * `OnEntryValueChanged` copies it into the filtered name at the selection. The
     * database name cache is left as it was.
     */
    method OnEntryValueChanged(newID: string) returns (outcome: Outcome)
      requires Valid()
      modifies this`itemID, this`filteredItemNamesCache
      ensures Valid()
      ensures entryCache == None ==>
        outcome == Failed(NullEntry) && itemID == old(itemID) && filteredItemNamesCache == old(filteredItemNamesCache)
      ensures entryCache.Some? ==> itemID == old(itemID)[entryCache.value := newID]
      ensures entryCache.Some? && selected < |old(filteredItemNamesCache)| ==>
        outcome == Done && filteredItemNamesCache == old(filteredItemNamesCache)[selected := newID]
      ensures entryCache.Some? && selected >= |old(filteredItemNamesCache)| ==>
        outcome == Failed(IndexOutOfRange) && filteredItemNamesCache == old(filteredItemNamesCache)
    {
      if entryCache == None {
        return Failed(NullEntry);
      }
      itemID := itemID[entryCache.value := newID];
      if selected >= |filteredItemNamesCache| {
        return Failed(IndexOutOfRange);
      }
      filteredItemNamesCache := filteredItemNamesCache[selected := itemID[entryCache.value]];
      outcome := Done;
    }

    /** `OnSidebarSelectionChanged`: loads the selected entry only when it is in view. */
    method OnSidebarSelectionChanged()
      requires Valid()
      modifies this`entryCache, this`selectedOld
      ensures Valid()
      ensures selected < |filteredList| ==> entryCache == Some(filteredList[selected]) && selectedOld == selected
      ensures selected >= |filteredList| ==> entryCache == old(entryCache) && selectedOld == old(selectedOld)
    {
      if |filteredList| > 0 && selected < |filteredList| {
        entryCache := Some(filteredList[selected]);
        selectedOld := selected;
      }
    }

    /** The end of every `OnGUI` pass: a changed selection is handled. */
    method SyncSelection()
      requires Valid()
      modifies this`entryCache, this`selectedOld
      ensures Valid()
      ensures selected == old(selectedOld) ==> entryCache == old(entryCache) && selectedOld == old(selectedOld)
      ensures selected != old(selectedOld) && selected < |filteredList| ==>
        entryCache == Some(filteredList[selected]) && selectedOld == selected
      ensures selected != old(selectedOld) && selected >= |filteredList| ==>
        entryCache == old(entryCache) && selectedOld == old(selectedOld)
    {
      if selected != selectedOld {
        OnSidebarSelectionChanged();
      }
    }

    /**
     * The selection part of `CheckInit` on every later `OnGUI` pass: with no entry
     * loaded, the selected entry is loaded if the filtered list has any, and the
     * editor pane shows "no selection" otherwise. (`selected` is -1 only before the
     * first pass, which `Open` models.)
     */
    method CheckInit() returns (outcome: Outcome)
      requires Valid()
      modifies this`entryCache, this`editorContent
      ensures Valid()
      ensures old(entryCache).Some? ==>
        outcome == Done && entryCache == old(entryCache) && editorContent == old(editorContent)
      ensures old(entryCache) == None && |filteredList| == 0 ==>
        outcome == Done && entryCache == None && editorContent == NoSelection
      ensures old(entryCache) == None && |filteredList| > 0 ==>
        && (outcome == Done <==> selected < |filteredList|)
        && (outcome == Done ==> entryCache == Some(filteredList[selected]) && editorContent == DrawEditor)
        && (outcome != Done ==>
              outcome == Failed(IndexOutOfRange) && entryCache == None && editorContent == old(editorContent))
    {
      outcome := Done;
      if entryCache == None {
        if |filteredList| > 0 {
          if selected >= |filteredList| {
            return Failed(IndexOutOfRange);
          }
          entryCache := Some(filteredList[selected]);
          editorContent := DrawEditor;
        } else {
          editorContent := NoSelection;
        }
      }
    }
  }

  /** The window opened on two entries with IDs "a" and "b": both in view, "a" loaded. */
  method OpenOnTwoEntries() returns (editor: DataEditor)
    ensures fresh(editor) && editor.Valid()
    ensures editor.itemList == [0, 1] && editor.itemID == map[0 := "a", 1 := "b"]
    ensures editor.filteredList == [0, 1] && editor.activeFilter == ""
    ensures editor.selected == 0 && editor.selectedOld == 0 && editor.entryCache == Some(0)
  {
    editor := new DataEditor.Open([0, 1], map[0 := "a", 1 := "b"]);
  }

  /** Of the entries "a" and "b", only "b" contains "b". */
  lemma OnlyBMatches()
    ensures Matching([0, 1], map[0 := "a", 1 := "b"], "b") == [1]
  {
    assert "b"[..1] == "b" && "a"[..1] == "a" && "a"[1..] == "";
    assert !Contains("", "b");
    assert !Contains("a", "b") && Contains("b", "b");
    assert [0, 1][..1] == [0];
    assert [0][..0] == [];
  }

  /**
   * Then "b" typed into the filter field: only "b" is in view, the selection is
   * reset to 0, which equals `selectedOld`, and "a" is still loaded.
   */
  method TypeFilterB() returns (editor: DataEditor)
    ensures fresh(editor) && editor.Valid()
    ensures editor.itemList == [0, 1] && editor.itemID == map[0 := "a", 1 := "b"]
    ensures editor.filteredList == [1] && |editor.filteredItemNamesCache| == 1
    ensures editor.selected == 0 && editor.selectedOld == 0 && editor.entryCache == Some(0)
  {
    editor := OpenOnTwoEntries();
    OnlyBMatches();
    editor.ForceChangeFilterValue("b");
    IDsOfAt(editor.filteredList, editor.itemID);
  }

  /**
   * A pass of `OnGUI` after that: `CheckInit` finds an entry loaded and the
   * selection equals `selectedOld`, so nothing reloads the editor pane.
   */
  method FilterHidesLoadedEntry() returns (editor: DataEditor)
    ensures fresh(editor) && editor.Valid()
    ensures editor.itemList == [0, 1] && editor.itemID == map[0 := "a", 1 := "b"]
    ensures editor.filteredList == [1] && |editor.filteredItemNamesCache| == 1
    ensures editor.selected == 0 && editor.entryCache == Some(0)
  {
    editor := TypeFilterB();
    var frame := editor.CheckInit();
    editor.SyncSelection();
  }

  /**
   * From there "Delete Selected" deletes "a", which is not in view, and leaves
   * one entry in view with no name.
   */
  method DeleteAfterFilterChange() returns (editor: DataEditor, outcome: Outcome)
    ensures outcome == Done
    ensures editor.itemList == [1] && editor.filteredList == [1] && editor.filteredItemNamesCache == []
  {
    editor := FilterHidesLoadedEntry();
    assert RemoveFirst([0, 1], 0) == [1] && RemoveFirst([1], 0) == [1];
    outcome := editor.OnDeleteSelectedButtonClicked();
  }

  /** The same steps with the highlighted entry deleted: "b" goes, and names stay parallel. */
  method DeleteHighlightedAfterFilterChange() returns (editor: DataEditor, deleted: Option<EntryId>)
    ensures deleted == Some(1)
    ensures editor.itemList == [0] && |editor.filteredList| == |editor.filteredItemNamesCache|
  {
    editor := FilterHidesLoadedEntry();
    var outcome;
    outcome, deleted := editor.DeleteHighlightedEntry();
    assert RemoveFirst([0, 1], 1) == [0];
  }
}
