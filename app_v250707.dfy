/** The memo app as of version 250707 (an.v250707.py): the memo store, the
    selection and the editor flag, the operations that change them, import
    validation and the ".txt" export. Widgets, dialogs and files are left
    out; a confirmation dialog is a boolean argument and the memo file is
    the ghost field `disk`. */
module AppV250707 {
  import opened Wrappers
  import opened PyText
  import opened JsonValues
  import opened MemoList
  import opened TxtExport

  /** Why import_memos refuses a file; each has its own error dialog. */
  datatype ImportError =
    | EmptyFile      // the file text strips to nothing
    | InvalidJson    // json.loads raised JSONDecodeError
    | NotAList       // the top-level value is not a list (TypeError)
    | MalformedMemo  // an element is not a dict with "title" and "content" (ValueError)

  datatype ImportOutcome = Imported | Declined | Rejected(error: ImportError)

  /** The validation steps of import_memos, in their order. `parsed` is what
      json.loads makes of `text` (None when it raises). */
  function ImportCheck(text: string, parsed: Option<Json>): (r: Result<seq<Json>, ImportError>)
    ensures r.Ok? ==> parsed == Some(Arr(r.value)) && AllRecords(r.value)
    ensures r == Err(EmptyFile) <==> AllSpace(text)
  {
    StripEmpty(text);
    if Strip(text) == [] then Err(EmptyFile)
    else if parsed.None? then Err(InvalidJson)
    else if !parsed.value.Arr? then Err(NotAList)
    else if !AllRecords(parsed.value.items) then Err(MalformedMemo)
    else Ok(parsed.value.items)
  }

  /** Import accepts exactly a non-blank file holding a list of records; in
      particular a store of records, as the app writes it, is read back
      unchanged. */
  lemma ImportAccepts(text: string, parsed: Option<Json>)
    ensures ImportCheck(text, parsed).Ok? <==>
      !AllSpace(text) && parsed.Some? && parsed.value.Arr? && AllRecords(parsed.value.items)
    ensures ImportCheck(text, parsed).Ok? ==> ImportCheck(text, parsed).value == parsed.value.items
  {
  }

  /** One block of the ".txt" export:
      f"제목: {title}\n" + "-"*20 + f"\n{content}\n\n" + "="*20 + "\n\n". */
  function Block(title: string, content: string): string {
    ("제목: " + title + "\n") + Dashes + ("\n" + content + "\n\n") + Equals + "\n\n"
  }

  /** The ".txt" export of a store. Both lookups of a memo are evaluated
      before its block is written, so a memo that is not a record stops the
      export with nothing of its own in the file. */
  function TxtFile(store: seq<Json>): TxtOutput {
    if store == [] then TxtOutput("", false)
    else
      var title := Field(store[0], "title");
      var content := Field(store[0], "content");
      if title.Some? && content.Some? then
        After(Block(title.value, content.value), TxtFile(store[1..]))
      else
        TxtOutput("", true)
  }

  /** The export runs to the end exactly when every memo is a record. */
  lemma {:induction false} TxtFileComplete(store: seq<Json>)
    ensures !TxtFile(store).failed <==> AllRecords(store)
  {
    if store != [] {
      TxtFileComplete(store[1..]);
      assert forall i :: 1 <= i < |store| ==> store[i] == store[1..][i - 1];
    }
  }

  lemma TxtFileStep(a: seq<Json>, b: seq<Json>)
    requires a != [] && IsRecord(a[0])
    ensures TxtFile(a + b) ==
      After(Block(Field(a[0], "title").value, Field(a[0], "content").value), TxtFile(a[1..] + b))
  {
    assert (a + b)[0] == a[0];
    assert (a + b)[1..] == a[1..] + b;
  }

  /** The export of a concatenation is the export of its parts, one after the
      other, when the first part exports completely. */
  lemma {:induction false} TxtFileAppend(a: seq<Json>, b: seq<Json>)
    requires !TxtFile(a).failed
    ensures TxtFile(a + b) == After(TxtFile(a).text, TxtFile(b))
  {
    if a == [] {
      assert a + b == b;
    } else {
      var block := Block(Field(a[0], "title").value, Field(a[0], "content").value);
      TxtFileStep(a, b);
      TxtFileAppend(a[1..], b);
      AfterAfter(block, TxtFile(a[1..]).text, TxtFile(b));
    }
  }

  /** A record exports as exactly one block of its title and content. */
  lemma TxtFileRecord(title: string, content: string)
    ensures TxtFile([Record(title, content)]) == TxtOutput(Block(title, content), false)
  {
    RecordFields(title, content);
    assert [Record(title, content)][1..] == [];
  }

  /** An export that meets a non-record at position k leaves in the file the
      complete export of the memos before it, and reports failure. */
  lemma TxtFileStops(store: seq<Json>, k: nat)
    requires k < |store| && AllRecords(store[..k]) && !IsRecord(store[k])
    ensures TxtFile(store) == TxtOutput(TxtFile(store[..k]).text, true)
  {
    assert store == store[..k] + store[k..];
    TxtFileComplete(store[..k]);
    TxtFileAppend(store[..k], store[k..]);
    assert store[k..][0] == store[k];
    assert TxtFile(store[k..]) == TxtOutput("", true);
    assert TxtFile(store[..k]).text + "" == TxtFile(store[..k]).text;
  }

  class MemoApp {
    /** self.memos */
    var memos: seq<Json>
    /** self.current_index */
    var currentIndex: int
    /** whether toggle_right_panel last enabled the title and content widgets */
    var editorEnabled: bool
    /** The memo file's decoded contents; None when it was missing or
        unreadable at start-up and has not been written since. */
    ghost var disk: Option<seq<Json>>

    ghost predicate Valid()
      reads this
    {
      SelectionOk(|memos|, currentIndex, editorEnabled) && Listable(memos)
    }

    /** The memo file holds what is in memory. */
    ghost predicate Synced()
      reads this
    {
      disk == Some(memos)
    }

    /** __init__: load the store, select nothing, disable the editor. `stored`
        is what load_memos decodes (None for a missing or unreadable file,
        which load_memos turns into an empty store). The initial
        update_listbox raises unless every memo has a title, and then the
        app never starts. */
    constructor (stored: Option<seq<Json>>)
      requires stored.Some? ==> Listable(stored.value)
      ensures Valid()
      ensures memos == (if stored.Some? then stored.value else [])
      ensures currentIndex == -1 && !editorEnabled && disk == stored
    {
      memos := if stored.Some? then stored.value else [];
      currentIndex := -1;
      editorEnabled := false;
      disk := stored;
    }

    /** toggle_right_panel */
    method ToggleRightPanel(enabled: bool)
      modifies this`editorEnabled
      ensures editorEnabled == enabled
    {
      editorEnabled := enabled;
    }

    /** save_memos */
    method SaveMemos()
      modifies this`disk
      ensures Synced()
    {
      disk := Some(memos);
    }

    /** update_listbox_selection: redraw the list (no state; it raises unless
        every memo has a title), then save. */
    method UpdateListboxSelection()
      requires Listable(memos)
      modifies this`disk
      ensures Synced()
    {
      SaveMemos();
    }

    /** on_memo_select: `selection` is the list view's first selected row, if
        any; the list view shows exactly the memos, so it is in range. */
    method OnMemoSelect(selection: Option<nat>)
      requires Valid()
      requires selection.Some? ==> selection.value < |memos|
      modifies this
      ensures Valid()
      ensures memos == old(memos) && disk == old(disk)
      ensures selection.None? ==> currentIndex == old(currentIndex) && editorEnabled == old(editorEnabled)
      ensures selection.Some? ==> currentIndex == selection.value && editorEnabled
    {
      if selection.None? {
        return;
      }
      currentIndex := selection.value;
      ToggleRightPanel(true);
    }

    /** on_home_key: select the first memo; nothing on an empty store. */
    method OnHomeKey()
      requires Valid()
      modifies this
      ensures Valid()
      ensures memos == old(memos) && disk == old(disk)
      ensures old(memos) == [] ==> currentIndex == old(currentIndex) && editorEnabled == old(editorEnabled)
      ensures old(memos) != [] ==> currentIndex == 0 && editorEnabled
    {
      if memos == [] {
        return;
      }
      OnMemoSelect(Some(0));
    }

    /** on_end_key: select the last memo; nothing on an empty store. */
    method OnEndKey()
      requires Valid()
      modifies this
      ensures Valid()
      ensures memos == old(memos) && disk == old(disk)
      ensures old(memos) == [] ==> currentIndex == old(currentIndex) && editorEnabled == old(editorEnabled)
      ensures old(memos) != [] ==> currentIndex == |memos| - 1 && editorEnabled
    {
      if memos == [] {
        return;
      }
      var lastIndex := |memos| - 1;
      OnMemoSelect(Some(lastIndex));
    }

    /** add_memo: insert the blank memo after the selection (at the end when
        nothing is selected), select it and save. */
    method AddMemo()
      requires Valid()
      modifies this
      ensures Valid() && Synced()
      ensures var pos := AddPosition(|old(memos)|, old(currentIndex));
        memos == InsertAt(old(memos), pos, NewMemo) && currentIndex == pos && editorEnabled
      ensures old(AllRecords(memos)) ==> AllRecords(memos)
    {
      var insertPos := if currentIndex != -1 then currentIndex + 1 else |memos|;
      memos := InsertAt(memos, insertPos, NewMemo);
      RecordFields("새 메모", "");
      OnMemoSelect(Some(insertPos));
      SaveMemos();
    }

    /** remove_memo: warn when nothing is selected; otherwise, if the user
        confirms, delete the selected memo, clear the selection, disable the
        editor and save. Returns whether the warning was shown. */
    method RemoveMemo(confirmed: bool) returns (warned: bool)
      requires Valid()
      modifies this
      ensures Valid()
      ensures warned <==> old(currentIndex) == -1
      ensures old(currentIndex) == -1 || !confirmed ==>
        memos == old(memos) && currentIndex == old(currentIndex)
        && editorEnabled == old(editorEnabled) && disk == old(disk)
      ensures old(currentIndex) != -1 && confirmed ==>
        memos == RemoveAt(old(memos), old(currentIndex)) && currentIndex == -1 && !editorEnabled && Synced()
      ensures old(AllRecords(memos)) ==> AllRecords(memos)
    {
      if currentIndex == -1 {
        return true;
      }
      warned := false;
      if confirmed {
        memos := RemoveAt(memos, currentIndex);
        currentIndex := -1;
        ToggleRightPanel(false);
        SaveMemos();
      }
    }

    /** move_memo_up: when a memo other than the first is selected, pop it and
        re-insert it one place earlier; the selection follows it. */
    method MoveMemoUp()
      requires Valid()
      modifies this
      ensures Valid()
      ensures old(currentIndex) > 0 ==>
        memos == Swap(old(memos), old(currentIndex) - 1, old(currentIndex))
        && currentIndex == old(currentIndex) - 1 && Synced()
      ensures old(currentIndex) <= 0 ==>
        memos == old(memos) && currentIndex == old(currentIndex) && disk == old(disk)
      ensures editorEnabled == old(editorEnabled) && multiset(memos) == multiset(old(memos))
      ensures old(AllRecords(memos)) ==> AllRecords(memos)
    {
      if currentIndex > 0 {
        ghost var before := memos;
        memos := MoveUp(memos, currentIndex);  // memos.insert(i - 1, memos.pop(i))
        MoveUpSwaps(before, currentIndex);
        SwapPermutes(before, currentIndex - 1, currentIndex);
        SwapKeepsMemos(before, currentIndex - 1, currentIndex);
        currentIndex := currentIndex - 1;
        UpdateListboxSelection();
      }
    }

    /** move_memo_down: when a memo other than the last is selected, pop it
        and re-insert it one place later; the selection follows it. */
    method MoveMemoDown()
      requires Valid()
      modifies this
      ensures Valid()
      ensures 0 <= old(currentIndex) < |old(memos)| - 1 ==>
        memos == Swap(old(memos), old(currentIndex), old(currentIndex) + 1)
        && currentIndex == old(currentIndex) + 1 && Synced()
      ensures !(0 <= old(currentIndex) < |old(memos)| - 1) ==>
        memos == old(memos) && currentIndex == old(currentIndex) && disk == old(disk)
      ensures editorEnabled == old(editorEnabled) && multiset(memos) == multiset(old(memos))
      ensures old(AllRecords(memos)) ==> AllRecords(memos)
    {
      if 0 <= currentIndex < |memos| - 1 {
        ghost var before := memos;
        memos := MoveDown(memos, currentIndex);  // memos.insert(i + 1, memos.pop(i))
        MoveDownSwaps(before, currentIndex);
        SwapPermutes(before, currentIndex, currentIndex + 1);
        SwapKeepsMemos(before, currentIndex, currentIndex + 1);
        currentIndex := currentIndex + 1;
        UpdateListboxSelection();
      }
    }

    /** update_memo_realtime: on a key release in the editor, overwrite the
        selected memo with the title entry's text and the stripped content,
        then save. `typed` is the content widget's text; Text.get("1.0", END)
        returns it with a newline appended. */
    method UpdateMemoRealtime(title: string, typed: string)
      requires Valid()
      modifies this
      ensures Valid()
      ensures currentIndex == old(currentIndex) && editorEnabled == old(editorEnabled)
      ensures old(currentIndex) == -1 || !old(editorEnabled) ==>
        memos == old(memos) && disk == old(disk)
      ensures old(currentIndex) != -1 && old(editorEnabled) ==>
        memos == old(memos)[old(currentIndex) := Record(title, Strip(typed))] && Synced()
      ensures old(AllRecords(memos)) ==> AllRecords(memos)
    {
      if currentIndex == -1 || !editorEnabled {
        return;
      }
      var content := Strip(typed + "\n");
      StripTrailingNewline(typed);
      memos := memos[currentIndex := Record(title, content)];
      RecordFields(title, content);
      SaveMemos();
    }

    /** The validation and replace steps of import_memos. `text` is the
        chosen file's text, `parsed` what json.loads makes of it and
        `confirmed` the answer to the overwrite question. */
    method ImportMemos(text: string, parsed: Option<Json>, confirmed: bool) returns (outcome: ImportOutcome)
      requires Valid()
      modifies this
      ensures Valid()
      ensures ImportCheck(text, parsed).Err? ==>
        outcome == Rejected(ImportCheck(text, parsed).error)
      ensures ImportCheck(text, parsed).Ok? && !confirmed ==> outcome == Declined
      ensures ImportCheck(text, parsed).Err? || !confirmed ==>
        memos == old(memos) && currentIndex == old(currentIndex)
        && editorEnabled == old(editorEnabled) && disk == old(disk)
      ensures ImportCheck(text, parsed).Ok? && confirmed ==>
        outcome == Imported && Some(Arr(memos)) == parsed && AllRecords(memos)
        && currentIndex == -1 && !editorEnabled && Synced()
    {
      var check := ImportCheck(text, parsed);
      if check.Err? {
        return Rejected(check.error);
      }
      if !confirmed {
        return Declined;
      }
      memos := check.value;
      SaveMemos();
      currentIndex := -1;
      ToggleRightPanel(false);
      outcome := Imported;
    }

    /** The ".txt" branch of export_memos: write one block per memo, in
        store order, until a memo cannot be rendered. */
    method ExportTxt() returns (out: TxtOutput)
      ensures out == TxtFile(memos)
    {
      var text := "";
      var i := 0;
      assert memos[0..] == memos;
      while i < |memos|
        invariant 0 <= i <= |memos|
        invariant TxtFile(memos) == After(text, TxtFile(memos[i..]))
      {
        assert memos[i..][0] == memos[i] && memos[i..][1..] == memos[i + 1..];
        var title := Field(memos[i], "title");
        var content := Field(memos[i], "content");
        if title.None? || content.None? {
          return TxtOutput(text, true);
        }
        text := text + Block(title.value, content.value);
        i := i + 1;
      }
      out := TxtOutput(text, false);
    }
  }
}
