# Memo app state machine, in Dafny

A model of the state underneath the Tkinter memo app "알파카 메모장" (`MemoApp`) in
its two dated versions, `an.v250707.py` (module `AppV250707`) and
`an.v250613.py` (module `AppV250613`). It also contains proofs about that model.

The model covers:

- **The memo store** (`memos`). It is a sequence of decoded JSON values. The app
  writes only `{"title": ..., "content": ...}` records (`JsonValues.Record`).
  However, the store holds whatever the memo file or an import produced. The
  older version's import can put values into it that are not records, so the
  store is modelled as `seq<Json>`.
- **The selection** (`currentIndex`) and **the editor flag** (`editorEnabled`),
  which `toggle_right_panel` sets.
- **The persisted copy**, the ghost field `disk`, which `save_memos` sets to the
  store.
- **The operations that change them:**
  - add, remove, move up and move down;
  - select, plus Home and End in the later version;
  - the realtime overwrite of the selected memo;
  - the validation and replace steps of import.

  A confirmation dialog is a boolean argument. The JSON decoder's result is an
  `Option<Json>` argument, where `None` means the decoder raised.
- **The ".txt" export.** It is a pure function of the store (`TxtFile`) and a
  loop method that writes it (`MemoApp.ExportTxt`). An export cut short by an
  exception keeps the text already written.

The class invariant `Valid()` is the selection invariant (`MemoList.SelectionOk`):
the selection is -1 or a position in the store, and the editor is enabled
exactly when something is selected. In the later version `Valid()` also
requires that every memo has a title (`JsonValues.Listable`). Without that, the
list view cannot be redrawn. The later version's import validation keeps this
true. The earlier version cannot keep it, so each of its operations that
redraws the list models what happens when the redraw (`update_listbox`)
raises. The Tk callback is abandoned at that point: nothing after the redraw
runs, and in particular nothing is saved.

Python's `str.strip` is modelled exactly, over the 29 code points for which
`str.isspace` holds (`PyText.Strip`). Python's `key in m` is modelled for
dicts, lists and strings, with the `TypeError` it raises on other values
(`JsonValues.In`). Python's `m[key]` inside an f-string is modelled as
`JsonValues.Field`.

Modules:

| file | module | contents |
|---|---|---|
| wrappers.dfy | `Wrappers` | `Option`, `Result` |
| py_text.dfy | `PyText` | `str.strip`, substring `in`, `str(int)` |
| json_values.dfy | `JsonValues` | decoded JSON values, `in`, `m[key]`, records |
| memo_list.dfy | `MemoList` | `insert`, `del`/`pop`, the reorder steps, the selection invariant |
| txt_export.dfy | `TxtExport` | the rule lines and the shape of an export |
| app_v250707.dfy | `AppV250707` | the later version |
| app_v250613.dfy | `AppV250613` | the earlier version |
| versions.dfy | `VersionDiff` | where the two versions agree and differ |

## Model

| member | source | states |
|---|---|---|
| PyText.StripEmpty | an.v250707.py:233 | `content.strip()` is empty exactly when every character of the file text is Python whitespace |
| PyText.StripTrailingNewline | an.v250707.py:370 | the newline that `Text.get("1.0", END)` appends does not change the stripped content |
| PyText.StripPadded | an.v250707.py:370 | `strip` removes exactly the whitespace around a core that starts and ends with non-whitespace |
| PyText.StripEnds | an.v250707.py:370 | a stripped string neither starts nor ends with whitespace |
| PyText.StripIdempotent | an.v250707.py:370 | stripping twice is stripping once |
| PyText.ContainsAt | an.v250613.py:184 | `sub in s` on strings holds iff `sub` occurs in `s` at some offset |
| TxtExport.RulesAreRepeats | an.v250707.py:275 | the rule lines are `"-" * 20` and `"=" * 20` |
| JsonValues.In | an.v250613.py:184 | `key in m` is key membership on a dict, element equality on a list, a substring test on a str, and raises (None) exactly on None, bools and numbers |
| JsonValues.Field | an.v250707.py:311 | `m[key]` succeeds exactly on a dict that has the key |
| JsonValues.RecordFields | an.v250707.py:325 | a memo the app builds reads back its title and content, and passes both versions' import tests |
| JsonValues.RecordsListable | an.v250707.py:308-311 | a store of records can always be listed |
| JsonValues.SwapKeepsMemos | an.v250707.py:348-358 | a reorder keeps a listable store listable and a store of records a store of records |
| JsonValues.InsertKeepsListable | an.v250613.py:280-285 | inserting the blank memo leaves the list redraw failing exactly when it failed before |
| MemoList.InsertAt | an.v250707.py:327 | `insert(i, x)`: one longer, `x` at `i`, the memos before `i` in place and those after shifted by one |
| MemoList.RemoveAt | an.v250707.py:340 | `del s[i]`: one shorter, the memos before `i` in place and those after shifted back by one |
| MemoList.InsertRemoveMultiset | an.v250707.py:324-346 | insert adds exactly the new memo and delete removes exactly the selected one |
| MemoList.InsertRemoveInverse | an.v250707.py:324-346 | inserting then deleting at a position restores the store, and so does deleting then re-inserting the same memo |
| MemoList.MoveUpSwaps | an.v250707.py:350 | `insert(i - 1, pop(i))` exchanges the memo with its upper neighbour and moves nothing else |
| MemoList.MoveDownSwaps | an.v250707.py:356 | `insert(i + 1, pop(i))` exchanges the memo with its lower neighbour and moves nothing else |
| MemoList.SwapPermutes | an.v250707.py:348-358 | a reorder keeps the length and the multiset of memos |
| MemoList.MoveUpThenDown | an.v250707.py:348-358 | moving a memo up and then down restores the store |
| MemoList.MoveDownThenUp | an.v250707.py:348-358 | moving a memo down and then up restores the store |
| AppV250707.ImportCheck | an.v250707.py:231-242 | an accepted import is the decoded list and consists of records; the empty-file error is reported exactly when the file text is all whitespace |
| AppV250707.ImportAccepts | an.v250707.py:231-242 | import accepts exactly a non-blank file that decodes to a list of dicts that each have "title" and "content", and accepts that list unchanged |
| AppV250707.TxtFileComplete | an.v250707.py:272-275 | the export runs to the end exactly when every memo is a record |
| AppV250707.TxtFileAppend | an.v250707.py:272-275 | the export of a concatenation is the export of each part, in order |
| AppV250707.TxtFileRecord | an.v250707.py:275 | a record exports as exactly its block |
| AppV250707.TxtFileStops | an.v250707.py:272-275 | an export that meets a non-record leaves the complete export of the memos before it, and reports failure |
| AppV250707.MemoApp.constructor | an.v250707.py:14-21 | the app starts with the loaded store, no selection and the editor disabled |
| AppV250707.MemoApp.ToggleRightPanel | an.v250707.py:290-294 | sets the editor flag |
| AppV250707.MemoApp.SaveMemos | an.v250707.py:304-306 | the memo file holds the store |
| AppV250707.MemoApp.UpdateListboxSelection | an.v250707.py:360-365 | redraws a store whose memos all have titles, then saves: the memo file holds the store |
| AppV250707.MemoApp.OnMemoSelect | an.v250707.py:313-322 | selects the clicked row and enables the editor; with no row selected, nothing changes |
| AppV250707.MemoApp.OnHomeKey | an.v250707.py:128-139 | selects the first memo; does nothing on an empty store |
| AppV250707.MemoApp.OnEndKey | an.v250707.py:141-153 | selects the last memo; does nothing on an empty store |
| AppV250707.MemoApp.AddMemo | an.v250707.py:324-333 | inserts the blank memo after the selection, or at the end, selects it, enables the editor and saves; the invariant holds |
| AppV250707.MemoApp.RemoveMemo | an.v250707.py:335-346 | warns and changes nothing without a selection; changes nothing when declined; when confirmed, deletes exactly the selected memo, clears the selection, disables the editor and saves |
| AppV250707.MemoApp.MoveMemoUp | an.v250707.py:348-352 | a no-op unless a memo other than the first is selected; otherwise swaps it with its upper neighbour, the selection follows it, the multiset of memos is kept and the store is saved |
| AppV250707.MemoApp.MoveMemoDown | an.v250707.py:354-358 | a no-op unless a memo other than the last is selected; otherwise swaps it with its lower neighbour, the selection follows it, the multiset of memos is kept and the store is saved |
| AppV250707.MemoApp.UpdateMemoRealtime | an.v250707.py:367-375 | a no-op without a selection or with the editor disabled; otherwise replaces only the selected memo by the typed title and stripped content, and saves |
| AppV250707.MemoApp.ImportMemos | an.v250707.py:222-258 | a rejected or declined import changes nothing; a confirmed one replaces the store by the decoded list, clears the selection, disables the editor and saves |
| AppV250707.MemoApp.ExportTxt | an.v250707.py:272-275 | the loop writes exactly `TxtFile(memos)` |
| AppV250613.AllHaveKeys | an.v250613.py:184 | `all("title" in m and "content" in m ...)` is True exactly when every element passes both tests |
| AppV250613.AllHaveKeysStops | an.v250613.py:184 | `all` stops at the first element that fails, and that element alone decides between False and a raised TypeError |
| AppV250613.ImportCheck | an.v250613.py:180-197 | import accepts exactly a decoded list whose every element passes both `in` tests, and accepts that list unchanged |
| AppV250613.ImportAcceptsNonRecord | an.v250613.py:184 | the list `["title content"]` is accepted, although it is not a record, cannot be listed and cannot be exported as text |
| AppV250613.TxtFileComplete | an.v250613.py:219-225 | the export runs to the end exactly when every memo is a record |
| AppV250613.TxtFileAppend | an.v250613.py:219-225 | the export of a concatenation is the export of each part, in order |
| AppV250613.TxtFileRecord | an.v250613.py:219-225 | a record exports as exactly its four pieces |
| AppV250613.MemoApp.constructor | an.v250613.py:13-20 | the app starts with the loaded store, no selection and the editor disabled |
| AppV250613.MemoApp.ToggleRightPanel | an.v250613.py:243-247 | sets the editor flag |
| AppV250613.MemoApp.SaveMemos | an.v250613.py:259-261 | the memo file holds the store |
| AppV250613.MemoApp.OnMemoSelect | an.v250613.py:268-278 | selects the clicked row and enables the editor; with no row selected, nothing changes |
| AppV250613.MemoApp.AddMemo | an.v250613.py:280-290 | inserts the blank memo after the selection, or at the end; if the list can be redrawn, selects it and saves; otherwise the selection, the editor and the file are untouched |
| AppV250613.MemoApp.RemoveMemo | an.v250613.py:292-303 | warns and changes nothing without a selection; changes nothing when declined; when confirmed, deletes exactly the selected memo, clears the selection and disables the editor, and saves if the list can be redrawn |
| AppV250613.MemoApp.MoveMemoUp | an.v250613.py:305-313 | a no-op unless a memo other than the first is selected; otherwise swaps it with its upper neighbour, the selection follows it, the multiset of memos is kept, and the store is saved if the list can be redrawn |
| AppV250613.MemoApp.MoveMemoDown | an.v250613.py:315-323 | a no-op unless a memo other than the last is selected; otherwise swaps it with its lower neighbour, the selection follows it, the multiset of memos is kept, and the store is saved if the list can be redrawn |
| AppV250613.MemoApp.UpdateMemoRealtime | an.v250613.py:325-334 | a no-op without a selection or with the editor disabled; otherwise replaces only the selected memo by the typed title and stripped content, and saves |
| AppV250613.MemoApp.ImportMemos | an.v250613.py:172-197 | a rejected or declined import changes nothing; a confirmed one replaces the store, saves, clears the selection and disables the editor, and then fails exactly when the new store cannot be listed, in which case the memo file holds a store that cannot be listed |
| AppV250613.MemoApp.ExportTxt | an.v250613.py:219-225 | the loop of four writes per memo writes exactly `TxtFile(memos)` |
| VersionDiff.RecordHasKeys | an.v250613.py:184 | every record passes the earlier version's membership test |
| VersionDiff.ImportNarrowed | an.v250707.py:238-242 | whatever the later import accepts, the earlier one accepts as the same list |
| VersionDiff.ImportNarrowedStrictly | an.v250707.py:241 | the dict check rejects a list that the earlier version accepts |
| VersionDiff.ExportsAgree | an.v250707.py:275 | on a store of records the single write and the four writes produce the same file |
| VersionDiff.ExportsDifferOnMissingContent | an.v250613.py:222-224 | a dict with a title but no content leaves its title and dash lines in the earlier version's file and nothing in the later one's |

## Left out

- Widgets and layout, the list view's contents, focus handling and key bindings (`create_menu`, `focus_on_*`, the `update_listbox` redraw): UI. Only their effect on the selection and the editor flag is kept, together with whether the redraw raises.
- Dialogs (`messagebox`, `filedialog`): UI. A confirmation is a boolean argument, and an error dialog is an error value. A cancelled file dialog returns before anything else happens, so it is not modelled.
- Reading and writing files, `json.load` / `json.loads` / `json.dump`: foreign library calls. The decoder's result is an argument; the memo file is the ghost field `disk`; `load_memos` is the constructor's argument, whose `None` means the file was missing or unreadable. A file that is not valid UTF-8 has no input in the model. Its `UnicodeDecodeError` is a `ValueError`, so it is handled differently in each place. `load_memos` does not catch it (an.v250707.py:301, an.v250613.py:254), so it propagates out of `__init__` and the app does not start. The later version's import shows the structure-error dialog for it (an.v250707.py:255), not the invalid-JSON one. Only the earlier version's import reports it like a decoding failure, through its generic handler (an.v250613.py:196).
- JSON floats, and dict values that are lists or dicts: `Json` has only integer numbers and scalar dict values. Keys are therefore compared as strings, and `str()` of a value (`PyStr`) is needed only for scalars.
- A memo file that decodes to something other than a list: the constructor takes a list.
- The ".json" export and the ".xlsx" export (through the optional `openpyxl` library): file I/O and a foreign library. The ".json" export first calls `save_memos` (an.v250707.py:269, an.v250613.py:216) and then copies the memo file. It is therefore one more writer of `disk`: it sets `disk` to the store, as `SaveMemos` does. In the earlier version it re-synchronises the file after a failed redraw has skipped a save. Unknown export extensions, which write nothing and report success, are I/O control flow.
- Settings (`load_settings`, `save_settings`, the font dialog): foreign parsers and UI.
- `on_closing`: it saves and destroys the window, which is I/O.
- AppV250707.MemoApp.OnMemoSelect and AppV250613.MemoApp.OnMemoSelect: filling the editor widgets with the memo's fields is UI. The selection and the editor flag change before those lookups, so they change even when a lookup raises, as modelled.
- AppV250613.ImportCheck: which of its two error dialogs appears when an element makes `in` raise is stated through `AllHaveKeysStops` rather than in its own contract.

## Findings

| source | as written | input that shows it | evidently intended | confidence | as-written member | corrected member |
|---|---|---|---|---|---|---|
| an.v250613.py:184 | import accepts a list whose elements pass `"title" in m and "content" in m`, which holds for strings and lists as well as dicts | a file holding `["title content"]` | accept only dicts that have both keys, so that the imported store can be listed and exported | high; not executed | AppV250613.ImportAcceptsNonRecord | AppV250707.ImportCheck |

With that input the earlier version replaces the store and saves it. Only then
does it fail, when redrawing the list (`AppV250613.MemoApp.ImportMemos` returns
`ImportedThenFailed`). From then on the store cannot be listed or exported as
text, and the later operations that redraw the list no longer save. The ".json"
export still works, because it copies the memo file. The worst consequence
comes at the next start. `load_memos` reads the saved file back
(an.v250613.py:18), and `__init__`'s first redraw (an.v250613.py:52) raises on
it, so the app does not open until the file is repaired by hand. The model
states both halves. `ImportMemos` ensures that an `ImportedThenFailed` outcome
leaves `disk` holding a store that cannot be listed. The constructor requires a
listable store, so it excludes exactly that start-up. The later version's
check (`AppV250707.ImportCheck`, characterised by `AppV250707.ImportAccepts`)
requires dict elements. It therefore keeps every store listable, which the later
version's class invariant `Valid()` records. `VersionDiff.ImportNarrowed` and
`VersionDiff.ImportNarrowedStrictly` show that it rejects strictly more than the
earlier check.
