# Dialog nodes and the collection data editor, modelled in Dafny

This project models two pieces of stateful logic from the Only-Now Unity project.

**Dialog nodes.** `OptionsDialogNode` and `RandomOutputNode` are the two kinds of dialog
node that derive from the abstract `BaseDialogNode`. Each node keeps:

- a list of options, where every option records the index of the output knob it created;
- the node graph plugin's list of output knobs;
- the height of the node's rectangle.

Adding an option creates an output knob and makes the node 22 units taller. Removing the
last option is refused while only one option is left. `Input` turns an input value into the
node across one of the outputs:

- `Back` (-1) reads output 0;
- `Next` (-2) reads output 1;
- an option index reads the output that option recorded.

No node ever creates dedicated Back or Next outputs. So `Back` and `Next` read the outputs
of options 0 and 1, and `Next` throws when the node has only one option.

**Collection data editor.** The window's sidebar keeps this state:

- the database's item list and the cached ID names;
- a filtered list with its parallel list of names;
- the filter text and the filter in effect;
- the selection, the previous selection, and the entry loaded into the editor pane;
- which sidebar and editor views are drawn.

Handlers for typing in the filter field, adding an entry, deleting an entry, editing an
entry's ID and changing the selection update that state.

Layout of the project:

- `dialog_node.dfy`: what `BaseDialogNode` gives both node kinds. This is the
  `EDialogInputValue` enum, the option and knob records, the layout bookkeeping predicate,
  and the shared resolution of an input value.
- `options_node.dfy`, `random_node.dfy`: the two node kinds, as classes whose methods
  update the options, the outputs and the height in place.
- `collection_filter.dfy`: the pure part of the sidebar. This is `string.Contains`, the
  entries whose ID contains the filter, and the ID names of a list of entries.
- `collection_data_editor.dfy`: the editor's static fields, as the fields of class
  `DataEditor`, and its handlers as methods. It ends with a scenario that shows the
  finding below.
- `lists.dfy`: the .NET `List<T>` operations the code uses (`IndexOf`, `RemoveAt`,
  `Remove`), and the fact that the lists hold no duplicates.
- `wrappers.dfy`: `Option`.

Entries are `nat` identities, not values. `itemID` maps each entry to its ID text. The
C# entries are shared objects, so renaming the loaded entry is one map update that shows in
every list holding it. A thrown exception is an explicit `Failed(...)` outcome, or
`OutOfRange` for `Input`. No handler is given a precondition that would rule it out.

## Model

| member | source | states |
|---|---|---|
| DialogNode.EDialogInputValue.Code | Assets/DialogEditor/Core/Nodes/BaseDialogNode.cs:44-48 | `Next` stands for -2 and `Back` for -1, both negative, and each value belongs to exactly one member |
| DialogNode.Classify | Assets/DialogEditor/Core/Nodes/BaseDialogNode.cs:44-48 | an integer matches a reserved case label only if it is that member's value, and no index of 0 or more ever matches one |
| DialogNode.ClassifyCode | Assets/DialogEditor/Core/Nodes/BaseDialogNode.cs:44-48 | each reserved value is recognised as its own member, and the two values differ |
| DialogNode.AllowRecursion | Assets/DialogEditor/Core/Nodes/BaseDialogNode.cs:11 | dialog nodes may connect back to a node met earlier |
| OptionsNode.OptionsDialogNode.Create | Assets/DialogEditor/Core/Nodes/OptionsDialogNode.cs:28-49 | a new node has exactly one option ("Write Here", output 0) and one unconnected output at 114; its height is 160 + 22; speaker "" and text "What I'll say..."; the bookkeeping invariant holds |
| OptionsNode.OptionsDialogNode.AddNewOption | Assets/DialogEditor/Core/Nodes/OptionsDialogNode.cs:110-118 | appends one output at 114 + 22 · (options before the call); appends one option "Write Here" that records that output's index (the new last one); the height grows by 22; option k still records output k and height = 160 + 22 · count |
| OptionsNode.OptionsDialogNode.RemoveLastOption | Assets/DialogEditor/Core/Nodes/OptionsDialogNode.cs:86-95 | with one option left nothing changes; otherwise exactly the last option and its output go, earlier ones are unchanged, the height shrinks by 22, and the invariant, including at least one option, is kept |
| OptionsNode.OptionsDialogNode.Input | Assets/DialogEditor/Core/Nodes/OptionsDialogNode.cs:127-145 | -1 gives the node across output 0; -2 gives the node across output 1, or the out-of-range error with one option; option k gives the node across its output; every other value is the out-of-range error; an unconnected output, or one leading to a node that is not a dialog node, gives null |
| OptionsNode.OptionsDialogNode.ReservedValuesReadOptions | Assets/DialogEditor/Core/Nodes/OptionsDialogNode.cs:38-39 | with the dedicated output commented out, `Back` resolves exactly as option 0 and `Next` as option 1 |
| OptionsNode.OptionsDialogNode.IsBackAvailable | Assets/DialogEditor/Core/Nodes/OptionsDialogNode.cs:147-150 | true exactly when output 0 is connected to any node; so true exactly when `Input(Back)` is not null or output 0 leads to a node that is not a dialog node, for which `Input(Back)` is null |
| OptionsNode.OptionsDialogNode.IsNextAvailable | Assets/DialogEditor/Core/Nodes/OptionsDialogNode.cs:152-155 | always false |
| OptionsNode.OptionsDialogNode.PassAhead | Assets/DialogEditor/Core/Nodes/BaseDialogNode.cs:18-21 | the receiving node itself, for every input value |
| OptionsNode.OptionsDialogNode.GetAllOptions | Assets/DialogEditor/Core/Nodes/OptionsDialogNode.cs:164-167 | one display text per option, in list order |
| RandomNode.RandomOutputNode.Create | Assets/DialogEditor/Core/Nodes/RandomOutputNode.cs:24-42 | a new node has exactly one option ("", output 0) and one unconnected output at 36; its height is 84 + 22; name "Random Node"; the invariant holds |
| RandomNode.RandomOutputNode.AddNewOption | Assets/DialogEditor/Core/Nodes/RandomOutputNode.cs:102-110 | appends an output at 36 + 22 · (options before the call) and a blank option recording it; the height grows by 22; the bookkeeping invariant and blank texts are kept |
| RandomNode.RandomOutputNode.RemoveLastOption | Assets/DialogEditor/Core/Nodes/RandomOutputNode.cs:76-85 | with one option left nothing changes; otherwise exactly the last option and its output go and the height shrinks by 22 |
| RandomNode.RandomOutputNode.Input | Assets/DialogEditor/Core/Nodes/RandomOutputNode.cs:119-137 | the same resolution as an options node: -1 reads output 0, -2 reads output 1 (an error with one option), option k reads its output, everything else is an error; null for no connection or a node of another kind |
| RandomNode.RandomOutputNode.IsBackAvailable | Assets/DialogEditor/Core/Nodes/RandomOutputNode.cs:139-142 | true exactly when output 0 is connected to any node; so true exactly when `Input(Back)` is not null or output 0 leads to a node that is not a dialog node |
| RandomNode.RandomOutputNode.IsNextAvailable | Assets/DialogEditor/Core/Nodes/RandomOutputNode.cs:144-147 | always false |
| RandomNode.RandomOutputNode.PassAhead | Assets/DialogEditor/Core/Nodes/BaseDialogNode.cs:18-21 | the receiving node itself, for every input value |
| RandomNode.RandomOutputNode.GetAllOptions | Assets/DialogEditor/Core/Nodes/RandomOutputNode.cs:156-159 | one text per option, in order, and every one of them is "" |
| Lists.IndexOf | Assets/DataEditors/CollectionDataEditor/Editor/CollectionDataEditor.cs:418 | the position `List.Remove` looks up: -1 exactly when the element is absent, otherwise a position holding it with no earlier occurrence |
| Lists.RemoveAt | Assets/DataEditors/CollectionDataEditor/Editor/CollectionDataEditor.cs:414 | one element shorter; the elements before k are kept and the ones after k move down by one |
| Lists.RemoveFirst | Assets/DataEditors/CollectionDataEditor/Editor/CollectionDataEditor.cs:418 | an absent element leaves the list unchanged; a present one makes it one shorter; nothing new appears |
| Lists.RemoveFirstAt | Assets/DialogEditor/Core/Nodes/OptionsDialogNode.cs:90-91 | removing by value the element at k, when nothing before k equals it, is `RemoveAt(k)` |
| Lists.RemoveFirstDistinct | Assets/DataEditors/CollectionDataEditor/Editor/CollectionDataEditor.cs:418 | on a duplicate-free list, `Remove(x)` keeps it duplicate-free and leaves exactly the elements other than x |
| Lists.DistinctSnoc | Assets/DataEditors/CollectionDataEditor/Editor/CollectionDataEditor.cs:390 | appending a new entry keeps the database free of duplicates |
| Lists.DistinctPairs | Assets/DataEditors/CollectionDataEditor/Editor/CollectionDataEditor.cs:418 | in a duplicate-free list, two different positions hold different entries |
| CollectionFilter.ContainsOccurs | Assets/DataEditors/CollectionDataEditor/Editor/CollectionDataEditor.cs:266 | the recursive `Contains` holds exactly when the filter occurs at some index of the ID |
| CollectionFilter.EmptyIsContained | Assets/DataEditors/CollectionDataEditor/Editor/CollectionDataEditor.cs:266 | every ID contains the empty filter |
| CollectionFilter.MatchingMembers | Assets/DataEditors/CollectionDataEditor/Editor/CollectionDataEditor.cs:265-270 | an entry is in the filtered list exactly when it is in the database and its ID contains the filter |
| CollectionFilter.MatchingAppend | Assets/DataEditors/CollectionDataEditor/Editor/CollectionDataEditor.cs:265-270 | filtering distributes over concatenation, so the filtered list keeps database order |
| CollectionFilter.MatchingEmptyFilter | Assets/DataEditors/CollectionDataEditor/Editor/CollectionDataEditor.cs:261-270 | the empty filter matches every entry, so the worker's copy plus its loop would list every entry twice |
| CollectionFilter.MatchingKnown | Assets/DataEditors/CollectionDataEditor/Editor/CollectionDataEditor.cs:265-270 | every filtered entry is a database entry with an ID |
| CollectionFilter.IDsOfAt | Assets/DataEditors/CollectionDataEditor/Editor/CollectionDataEditor.cs:351-353 | one name per entry, and name k is entry k's ID |
| CollectionFilter.Snoc | Assets/DataEditors/CollectionDataEditor/Editor/CollectionDataEditor.cs:265-270 | one more database entry adds it to the matches when its ID contains the filter, and always adds its name |
| CollectionFilter.IDsOfSnoc | Assets/DataEditors/CollectionDataEditor/Editor/CollectionDataEditor.cs:268 | appending an entry appends its ID to the names |
| CollectionDataEditor.Without | Assets/DataEditors/CollectionDataEditor/Editor/CollectionDataEditor.cs:412 | `Remove(entryCache)` with a null `entryCache` removes nothing, and it never adds an entry |
| CollectionDataEditor.AppendMatching | Assets/DataEditors/CollectionDataEditor/Editor/CollectionDataEditor.cs:265-270 | the loop leaves the starting list followed by exactly the matching entries in database order, with their IDs in parallel |
| CollectionDataEditor.DataEditor.Open | Assets/DataEditors/CollectionDataEditor/Editor/CollectionDataEditor.cs:87-128 | the first `CheckInit` on a loaded database: the whole database in view, its names cached and copied, the selection 0, and the first entry loaded, or "no selection" for an empty database |
| CollectionDataEditor.DataEditor.CacheItemNames | Assets/DataEditors/CollectionDataEditor/Editor/CollectionDataEditor.cs:348-354 | the names have the database's length, and name k is entry k's ID |
| CollectionDataEditor.DataEditor.OnFilteringBegin | Assets/DataEditors/CollectionDataEditor/Editor/CollectionDataEditor.cs:455-461 | both panes show that filtering is under way |
| CollectionDataEditor.DataEditor.OnFilteringDone | Assets/DataEditors/CollectionDataEditor/Editor/CollectionDataEditor.cs:463-478 | "no result" and "no selection" exactly when the filtered list is empty, selections and editor otherwise |
| CollectionDataEditor.DataEditor.FilterWorker | Assets/DataEditors/CollectionDataEditor/Editor/CollectionDataEditor.cs:259-273 | the filtered list is exactly the matching entries in database order (after a copy of the database for the empty filter), the names are their IDs in parallel, the filter in effect is the argument, and the views are those for the result |
| CollectionDataEditor.DataEditor.OnFilterFieldChanged | Assets/DataEditors/CollectionDataEditor/Editor/CollectionDataEditor.cs:358-384 | afterwards the filter in effect is the filter text; an empty text shows the whole database and its names, resetting the selection only when a filter was in effect; a new text shows exactly the matching entries and resets the selection to 0; an unchanged text changes nothing |
| CollectionDataEditor.DataEditor.ForceChangeFilterValue | Assets/DataEditors/CollectionDataEditor/Editor/CollectionDataEditor.cs:521-524 | sets the filter text and the filter in effect to the value, with the outcome of a field edit |
| CollectionDataEditor.DataEditor.OnAddNewButtonClicked | Assets/DataEditors/CollectionDataEditor/Editor/CollectionDataEditor.cs:386-406 | the database gains one new last entry with ID "New Item"; names are re-cached; the filter is cleared so every entry is in view; the new entry is selected and loaded, and the sidebar highlights the loaded entry |
| CollectionDataEditor.DataEditor.ShowAfterRemoval | Assets/DataEditors/CollectionDataEditor/Editor/CollectionDataEditor.cs:422-438 | the names are re-cached; with entries in view the selection moves back one if it fell off the end, and that entry is loaded (an error if it is still out of range); the filter and both views are unchanged; with none in view the empty database is shown and the filter and selection are unchanged, or a filter in effect is cleared, the selection becomes 0 and the whole database is shown |
| CollectionDataEditor.DataEditor.OnDeleteSelectedButtonClicked | Assets/DataEditors/CollectionDataEditor/Editor/CollectionDataEditor.cs:408-441 | the loaded entry is removed from the filtered list and the database, and the name at the selection from the filtered names; an out-of-range selection throws after the first removal and changes nothing else; when entries remain the selection moves back one if it fell off the end, that entry is loaded, and the filter and views are unchanged; an empty view shows the empty database, or clears an active filter and shows the whole database with the views `OnFilteringDone` picks; when the highlighted entry was the loaded one, exactly it is deleted and the sidebar stays in step |
| CollectionDataEditor.DataEditor.DeleteHighlightedEntry | Assets/DataEditors/CollectionDataEditor/Editor/CollectionDataEditor.cs:408-441 | the intended deletion: the highlighted entry is removed from both lists and its name from the names; it is gone from the database; names stay parallel; when entries remain the selection stays in range and is loaded and the filter and views are unchanged; when the last entry in view goes, the empty database is shown or an active filter is cleared; an out-of-range selection throws and changes nothing |
| CollectionDataEditor.DataEditor.OnEntryValueChanged | Assets/DataEditors/CollectionDataEditor/Editor/CollectionDataEditor.cs:444-449 | the loaded entry's ID becomes the edited text, and the filtered name at the selection is updated; no entry loaded or a selection out of range is an error |
| CollectionDataEditor.DataEditor.OnSidebarSelectionChanged | Assets/DataEditors/CollectionDataEditor/Editor/CollectionDataEditor.cs:480-491 | with the selection in view, that entry is loaded and becomes the previous selection; otherwise nothing changes |
| CollectionDataEditor.DataEditor.SyncSelection | Assets/DataEditors/CollectionDataEditor/Editor/CollectionDataEditor.cs:168 | the selection handler runs only when the selection differs from the previous one: then an in-view selection is loaded and becomes the previous one, and an out-of-view one changes nothing |
| CollectionDataEditor.DataEditor.CheckInit | Assets/DataEditors/CollectionDataEditor/Editor/CollectionDataEditor.cs:116-126 | with an entry loaded nothing changes; otherwise the selected entry is loaded, or an out-of-range selection throws and leaves no entry loaded and the editor view unchanged, or "no selection" is shown for an empty view |
| CollectionDataEditor.OpenOnTwoEntries | Assets/DataEditors/CollectionDataEditor/Editor/CollectionDataEditor.cs:87-128 | opening on entries "a" and "b" shows both, selects 0 and loads "a" |
| CollectionDataEditor.OnlyBMatches | Assets/DataEditors/CollectionDataEditor/Editor/CollectionDataEditor.cs:266 | of "a" and "b", only "b" contains "b" |
| CollectionDataEditor.TypeFilterB | Assets/DataEditors/CollectionDataEditor/Editor/CollectionDataEditor.cs:376-380 | typing "b" shows only "b" with selection 0, which equals the previous selection, while "a" stays loaded |
| CollectionDataEditor.FilterHidesLoadedEntry | Assets/DataEditors/CollectionDataEditor/Editor/CollectionDataEditor.cs:154-171 | the next `OnGUI` pass reloads nothing: "b" is highlighted and "a" is loaded |
| CollectionDataEditor.DeleteAfterFilterChange | Assets/DataEditors/CollectionDataEditor/Editor/CollectionDataEditor.cs:408-441 | "Delete Selected" then deletes "a", which is not in view, keeps "b" in view and leaves it without a name |
| CollectionDataEditor.DeleteHighlightedAfterFilterChange | Assets/DataEditors/CollectionDataEditor/Editor/CollectionDataEditor.cs:408-441 | the corrected deletion in the same state deletes "b", and the names stay parallel to the filtered list |

## Left out

- Drawing is not modelled: `NodeGUI`, `DrawOptions`, `DrawSidebar`, `DrawEditor`, the `EditorContent_*` and `Sidebar_*` bodies, `ToggleBoxSkin`, `DrawImageEditButton`, `OnGUI`'s layout and `OpenNodeEditor`. These are immediate-mode GUI calls. What a handler shows is recorded as the `SidebarContent` and `EditorContent` values the delegates are set to.
- The selection grid (`Sidebar_DrawSelections`) is where the user picks a new `selected`. The model treats `selected` as a field the user may set to any value of 0 or more. `OnSidebarSelectionChanged` and `SyncSelection` handle whatever it holds.
- The option text field of `OptionsDialogNode.DrawOptions` is not modelled. It is GUI input that rewrites an option's display text.
- `IssueEditorCallBacks`, `CreateInput`, `GetID` and `GetObjectType` are not modelled. They are plugin callbacks and type metadata with no effect on the modelled state.
- The node graph plugin is not part of this model. It is assumed that `CreateOutput` appends one knob at the given side position, and that `Knob.Delete()` removes that knob from `Outputs`. A knob's connection is `Unconnected`, `ToDialogNode(id)` or `ToOtherNode`. `GetNodeAcrossConnection() as BaseDialogNode` is `Knob.DialogNodeAcross`: the id for a dialog node, and null for no connection or for a node of another kind. Which other kinds of node the canvas allows is not part of this model.
- `BaseDialogNode` is an abstract class. Here its shared pieces are the `DialogNode` module, and each subclass repeats the `Input`, `IsBackAvailable`, `IsNextAvailable` and `PassAhead` members with the same contract.
- Rect x, y and width, node positions and the connection-type declarations are not modelled. They are floating-point geometry and decoration; only the integer height is kept.
- Persistence and object lifetime are not modelled: `LoadDatabase`, `SaveDatabase`, `DoBackup`, `AddSubAsset`, `AssetDatabase` and `Resources`. `DestroyImmediate` is modelled only by its visible effect: the destroyed `entryCache` compares equal to null afterwards (`entryCache := None`).
- The `SaveTimer` debounce, `lastChangeTime` and the backup check on `DateTime.Now.Ticks` are not modelled. They depend on the clock.
- JSON import and export are not modelled. They go through file dialogs and `CollectionDatabase` methods that are not part of this model.
- CollectionDataEditor.DataEditor.Open: models only the first `CheckInit` on a loaded database. `selected == -1` occurs only before that first pass.
- CollectionDataEditor.DataEditor.Open: copies the item list into the filtered list. The source assigns the same `List` object (`filteredList = databaseCache.itemList`, CollectionDataEditor.cs:93). While the two names refer to one list, two handlers can observe it. `OnAddNewButtonClicked` adds the new entry to the database (CollectionDataEditor.cs:390), which also grows `filteredList`. Then `ForceChangeFilterValue("")` at :394 replaces `filteredList` with a copy of the database in either case. `OnDeleteSelectedButtonClicked` removes the entry from `filteredList` (:412), which also removes it from the database, and the second `Remove` at :418 then finds nothing. Every other change replaces `filteredList` with a new list. So both handlers end with the same lists as in the model.
- CollectionDataEditor.DataEditor.OnEntryValueChanged: leaves `itemNamesCache` stale after a rename, as the source does. A later empty filter shows the old name until the names are cached again.
- C# `int` is 32 bits wide. Counts, indices and knob positions here are unbounded integers, because no list or node comes near 2^31 elements.
- The node height `rect.height` is a Unity `float`. It is modelled as an integer. This is exact, because every height the nodes reach is a small whole number: 160 + 22·n or 84 + 22·n.
- The editor's entries must be distinct. The new entry of `OnAddNewButtonClicked` must be fresh (`newEntry !in itemID`), and its ID text is "New Item". `CollectionDataEntry.Create("New Item")` (CollectionDataEditor.cs:388) is not part of this model: it is assumed to return a new asset whose `itemID` is its argument.

## Findings

| source | as written | input that shows it | evidently intended | confidence | as-written member | corrected member |
|---|---|---|---|---|---|---|
| Assets/DataEditors/CollectionDataEditor/Editor/CollectionDataEditor.cs:408-441 | "Delete Selected" removes `entryCache`, the entry loaded in the editor pane, from both lists. It then removes the name at `selected` from the filtered names. A filter change resets `selected` to 0 without reloading the pane when `selectedOld` is already 0. So the loaded entry can be one the sidebar does not show, and it is deleted instead of the highlighted one. The filtered list and its names then fall out of step. | A database with entries "a" and "b": open the window ("a" loaded, selection 0), type "b" into the filter, press "Delete Selected". "a" is deleted, "b" stays in view, and the filtered names list is empty. | Delete the highlighted entry `filteredList[selected]` from both lists and drop its name, keeping the names parallel to the filtered list. | not executed | CollectionDataEditor.DeleteAfterFilterChange | CollectionDataEditor.DataEditor.DeleteHighlightedEntry |
