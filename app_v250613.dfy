/** The memo app as of version 250613 (an.v250613.py). Same state as the
    later version, but import only tests `"title" in m and "content" in m`,
    so it can put values into the store that the list view cannot show;
    the list refresh (update_listbox) then raises, and what the operation
    would have done after it (select, save) does not happen. There is no
    Home/End selection. */
module AppV250613 {
  import opened Wrappers
  import opened PyText
  import opened JsonValues
  import opened MemoList
  import opened TxtExport

  /** Why import_memos refuses a file. */
  datatype ImportError =
    | InvalidJson      // json.load raised; the generic error dialog
    | NotMemoList      // not a list, or all() returned False; "not a memo file" dialog
    | MembershipError  // `"title" in m` raised TypeError; the generic error dialog

  datatype ImportOutcome =
    | Imported
    | ImportedThenFailed  // store replaced and saved, then the list refresh raised
    | Declined
    | Rejected(error: ImportError)

  /** `"title" in m and "content" in m` for one element: Some of its truth
      value, or None where `in` raises. */
  function HasKeys(m: Json): Option<bool> {
    match In("title", m)
    case None => None
    case Some(false) => Some(false)
    case Some(true) => In("content", m)
  }

  /** `all("title" in m and "content" in m for m in items)`, evaluated left
      to right: Some(true) when every element has both keys; otherwise the
      first element without them makes all() return False, or raise (None). */
  function AllHaveKeys(items: seq<Json>): (r: Option<bool>)
    ensures r == Some(true) <==> forall i :: 0 <= i < |items| ==> HasKeys(items[i]) == Some(true)
  {
    if items == [] then Some(true)
    else
      assert forall i :: 1 <= i < |items| ==> items[i] == items[1..][i - 1];
      match HasKeys(items[0])
      case None => None
      case Some(false) => Some(false)
      case Some(true) => AllHaveKeys(items[1..])
  }

  /** all() stops at the first element without both keys: that element alone
      decides between False and an exception. */
  lemma {:induction false} AllHaveKeysStops(items: seq<Json>, k: nat)
    requires k < |items| && HasKeys(items[k]) != Some(true)
    requires forall i :: 0 <= i < k ==> HasKeys(items[i]) == Some(true)
    ensures AllHaveKeys(items) == HasKeys(items[k])
  {
    if k > 0 {
      assert HasKeys(items[0]) == Some(true);
      assert items[1..][k - 1] == items[k];
      AllHaveKeysStops(items[1..], k - 1);
    }
  }

  /** The validation step of import_memos. `parsed` is what json.load makes
      of the chosen file (None when it raises). */
  function ImportCheck(parsed: Option<Json>): (r: Result<seq<Json>, ImportError>)
    ensures r.Ok? <==> (parsed.Some? && parsed.value.Arr?
      && forall i :: 0 <= i < |parsed.value.items| ==> HasKeys(parsed.value.items[i]) == Some(true))
    ensures r.Ok? ==> parsed == Some(Arr(r.value))
  {
    if parsed.None? then Err(InvalidJson)
    else if !parsed.value.Arr? then Err(NotMemoList)
    else match AllHaveKeys(parsed.value.items)
      case None => Err(MembershipError)
      case Some(false) => Err(NotMemoList)
      case Some(true) => Ok(parsed.value.items)
  }

  /** The check lets through an element that is not a dict at all: a string
      that merely contains both words. Such a store cannot be listed, and
      its ".txt" export fails at once. */
  lemma ImportAcceptsNonRecord()
    ensures var items := [Atom(Str("title content"))];
      && ImportCheck(Some(Arr(items))) == Ok(items)
      && !IsRecord(items[0]) && !Listable(items) && TxtFile(items) == TxtOutput("", true)
  {
    var s := "title content";
    assert OccursAt(s, "title", 0);
    OffsetContains(s, "title", 0);
    assert s[6..13] == "content";
    assert OccursAt(s, "content", 6);
    OffsetContains(s, "content", 6);
    var items := [Atom(Str(s))];
    assert HasKeys(items[0]) == Some(true);
    assert AllHaveKeys(items[1..]) == Some(true);
  }

  /** f"제목: {title}\n" */
  function TitleLine(title: string): string {
    "제목: " + title + "\n"
  }

  /** "-" * 20 + "\n" */
  const DashLine: string := Dashes + "\n"

  /** f"{content}\n\n" */
  function ContentLines(content: string): string {
    content + "\n\n"
  }

  /** "=" * 20 + "\n\n" */
  const EqualsLines: string := Equals + "\n\n"

  /** One complete block, as the four writes leave it. */
  function Block(title: string, content: string): string {
    TitleLine(title) + DashLine + ContentLines(content) + EqualsLines
  }

  /** The successive writes of one memo's block, each appended to the file
      so far, add up to the block. */
  lemma WritesAddUp(done: string, title: string, content: string)
    ensures done + TitleLine(title) + DashLine == done + (TitleLine(title) + DashLine)
    ensures done + TitleLine(title) + DashLine + ContentLines(content) + EqualsLines
      == done + Block(title, content)
  {
  }

  /** The ".txt" export of a store, written in four pieces per memo: a memo
      without a title stops the export before anything of it is written; a
      dict without "content" stops it after its title and dash lines. */
  function TxtFile(store: seq<Json>): TxtOutput {
    if store == [] then TxtOutput("", false)
    else
      var title := Field(store[0], "title");
      var content := Field(store[0], "content");
      if title.None? then TxtOutput("", true)
      else if content.None? then TxtOutput(TitleLine(title.value) + DashLine, true)
      else After(Block(title.value, content.value), TxtFile(store[1..]))
  }

  /** The export runs to the end exactly when every memo is a record. */
  lemma {:induction false} TxtFileComplete(store: seq<Json>)
    ensures !TxtFile(store).failed <==> AllRecords(store)
  {
    if store != [] {
      TxtFileComplete(store[1..]);
      assert forall i :: 1 <= i < |store| ==> store[i] == store[1..][i - 1];
    }
  }

  lemma TxtFileStep(a: seq<Json>, b: seq<Json>)
    requires a != [] && IsRecord(a[0])
    ensures TxtFile(a + b) ==
      After(Block(Field(a[0], "title").value, Field(a[0], "content").value), TxtFile(a[1..] + b))
  {
    assert (a + b)[0] == a[0];
    assert (a + b)[1..] == a[1..] + b;
  }

  /** The export of a concatenation is the export of its parts, one after the
      other, when the first part exports completely. */
  lemma {:induction false} TxtFileAppend(a: seq<Json>, b: seq<Json>)
    requires !TxtFile(a).failed
    ensures TxtFile(a + b) == After(TxtFile(a).text, TxtFile(b))
  {
    if a == [] {
      assert a + b == b;
    } else {
      var block := Block(Field(a[0], "title").value, Field(a[0], "content").value);
      TxtFileStep(a, b);
      TxtFileAppend(a[1..], b);
      AfterAfter(block, TxtFile(a[1..]).text, TxtFile(b));
    }
  }

  /** A record exports as exactly one block of its title and content. */
  lemma TxtFileRecord(title: string, content: string)
    ensures TxtFile([Record(title, content)]) == TxtOutput(Block(title, content), false)
  {
    RecordFields(title, content);
    assert [Record(title, content)][1..] == [];
  }

  class MemoApp {
    /** self.memos */
    var memos: seq<Json>
    /** self.current_index */
    var currentIndex: int
    /** whether toggle_right_panel last enabled the title and content widgets */
    var editorEnabled: bool
    /** The memo file's decoded contents; None when it was missing or
        unreadable at start-up and has not been written since. */
    ghost var disk: Option<seq<Json>>

    ghost predicate Valid()
      reads this
    {
      SelectionOk(|memos|, currentIndex, editorEnabled)
    }

    /** The memo file holds what is in memory. */
    ghost predicate Synced()
      reads this
    {
      disk == Some(memos)
    }

    /** __init__: load the store, select nothing, disable the editor. The
        initial update_listbox raises unless every memo has a title, and
        then the app never starts. */
    constructor (stored: Option<seq<Json>>)
      requires stored.Some? ==> Listable(stored.value)
      ensures Valid() && Listable(memos)
      ensures memos == (if stored.Some? then stored.value else [])
      ensures currentIndex == -1 && !editorEnabled && disk == stored
    {
      memos := if stored.Some? then stored.value else [];
      currentIndex := -1;
      editorEnabled := false;
      disk := stored;
    }

    /** toggle_right_panel */
    method ToggleRightPanel(enabled: bool)
      modifies this`editorEnabled
      ensures editorEnabled == enabled
    {
      editorEnabled := enabled;
    }

    /** save_memos */
    method SaveMemos()
      modifies this`disk
      ensures Synced()
    {
      disk := Some(memos);
    }

    /** on_memo_select: `selection` is the list view's first selected row, if
        any, which is a position in the store. The selection and the editor
        are set before the memo's fields are read, so they change even
        when reading the fields raises. */
    method OnMemoSelect(selection: Option<nat>)
      requires Valid()
      requires selection.Some? ==> selection.value < |memos|
      modifies this
      ensures Valid()
      ensures memos == old(memos) && disk == old(disk)
      ensures selection.None? ==> currentIndex == old(currentIndex) && editorEnabled == old(editorEnabled)
      ensures selection.Some? ==> currentIndex == selection.value && editorEnabled
    {
      if selection.None? {
        return;
      }
      currentIndex := selection.value;
      ToggleRightPanel(true);
    }

    /** add_memo: insert the blank memo after the selection (at the end when
        nothing is selected); when the list can be redrawn, select it and
        save. */
    method AddMemo()
      requires Valid()
      modifies this
      ensures Valid()
      ensures memos == InsertAt(old(memos), AddPosition(|old(memos)|, old(currentIndex)), NewMemo)
      ensures Listable(memos) <==> old(Listable(memos))
      ensures Listable(memos) ==>
        currentIndex == AddPosition(|old(memos)|, old(currentIndex)) && editorEnabled && Synced()
      ensures !Listable(memos) ==>
        currentIndex == old(currentIndex) && editorEnabled == old(editorEnabled) && disk == old(disk)
    {
      var insertPos := if currentIndex != -1 then currentIndex + 1 else |memos|;
      ghost var before := memos;
      memos := InsertAt(memos, insertPos, NewMemo);
      RecordFields("새 메모", "");
      InsertKeepsListable(before, insertPos, NewMemo);
      if !Listable(memos) {
        return;  // update_listbox raised
      }
      OnMemoSelect(Some(insertPos));
      SaveMemos();
    }

    /** remove_memo: warn when nothing is selected; otherwise, if the user
        confirms, delete the selected memo, clear the selection and disable
        the editor, then save if the list can be redrawn. */
    method RemoveMemo(confirmed: bool) returns (warned: bool)
      requires Valid()
      modifies this
      ensures Valid()
      ensures warned <==> old(currentIndex) == -1
      ensures old(currentIndex) == -1 || !confirmed ==>
        memos == old(memos) && currentIndex == old(currentIndex)
        && editorEnabled == old(editorEnabled) && disk == old(disk)
      ensures old(currentIndex) != -1 && confirmed ==>
        memos == RemoveAt(old(memos), old(currentIndex)) && currentIndex == -1 && !editorEnabled
        && (if Listable(memos) then Synced() else disk == old(disk))
    {
      if currentIndex == -1 {
        return true;
      }
      warned := false;
      if confirmed {
        memos := RemoveAt(memos, currentIndex);
        currentIndex := -1;
        ToggleRightPanel(false);
        if !Listable(memos) {
          return;  // update_listbox raised
        }
        SaveMemos();
      }
    }

    /** move_memo_up: when a memo other than the first is selected, pop it and
        re-insert it one place earlier; the selection follows it; save if the
        list can be redrawn. */
    method MoveMemoUp()
      requires Valid()
      modifies this
      ensures Valid()
      ensures old(currentIndex) > 0 ==>
        memos == Swap(old(memos), old(currentIndex) - 1, old(currentIndex))
        && currentIndex == old(currentIndex) - 1
        && (if Listable(memos) then Synced() else disk == old(disk))
      ensures old(currentIndex) <= 0 ==>
        memos == old(memos) && currentIndex == old(currentIndex) && disk == old(disk)
      ensures editorEnabled == old(editorEnabled) && multiset(memos) == multiset(old(memos))
    {
      if currentIndex > 0 {
        ghost var before := memos;
        memos := MoveUp(memos, currentIndex);  // memos.insert(i - 1, memos.pop(i))
        MoveUpSwaps(before, currentIndex);
        SwapPermutes(before, currentIndex - 1, currentIndex);
        currentIndex := currentIndex - 1;
        if !Listable(memos) {
          return;  // update_listbox raised
        }
        SaveMemos();
      }
    }

    /** move_memo_down: when a memo other than the last is selected, pop it
        and re-insert it one place later; the selection follows it; save if
        the list can be redrawn. */
    method MoveMemoDown()
      requires Valid()
      modifies this
      ensures Valid()
      ensures 0 <= old(currentIndex) < |old(memos)| - 1 ==>
        memos == Swap(old(memos), old(currentIndex), old(currentIndex) + 1)
        && currentIndex == old(currentIndex) + 1
        && (if Listable(memos) then Synced() else disk == old(disk))
      ensures !(0 <= old(currentIndex) < |old(memos)| - 1) ==>
        memos == old(memos) && currentIndex == old(currentIndex) && disk == old(disk)
      ensures editorEnabled == old(editorEnabled) && multiset(memos) == multiset(old(memos))
    {
      if 0 <= currentIndex < |memos| - 1 {
        ghost var before := memos;
        memos := MoveDown(memos, currentIndex);  // memos.insert(i + 1, memos.pop(i))
        MoveDownSwaps(before, currentIndex);
        SwapPermutes(before, currentIndex, currentIndex + 1);
        currentIndex := currentIndex + 1;
        if !Listable(memos) {
          return;  // update_listbox raised
        }
        SaveMemos();
      }
    }

    /** update_memo_realtime: on a key release in the editor, overwrite the
        selected memo with the title entry's text and the stripped content,
        then save. `typed` is the content widget's text; Text.get("1.0", END)
        returns it with a newline appended. */
    method UpdateMemoRealtime(title: string, typed: string)
      requires Valid()
      modifies this
      ensures Valid()
      ensures currentIndex == old(currentIndex) && editorEnabled == old(editorEnabled)
      ensures old(currentIndex) == -1 || !old(editorEnabled) ==>
        memos == old(memos) && disk == old(disk)
      ensures old(currentIndex) != -1 && old(editorEnabled) ==>
        memos == old(memos)[old(currentIndex) := Record(title, Strip(typed))] && Synced()
    {
      if currentIndex == -1 || !editorEnabled {
        return;
      }
      var content := Strip(typed + "\n");
      StripTrailingNewline(typed);
      memos := memos[currentIndex := Record(title, content)];
      SaveMemos();
    }

    /** The validation and replace steps of import_memos. `parsed` is what
        json.load makes of the chosen file and `confirmed` the answer to the
        overwrite question. */
    method ImportMemos(parsed: Option<Json>, confirmed: bool) returns (outcome: ImportOutcome)
      requires Valid()
      modifies this
      ensures Valid()
      ensures ImportCheck(parsed).Err? ==> outcome == Rejected(ImportCheck(parsed).error)
      ensures ImportCheck(parsed).Ok? && !confirmed ==> outcome == Declined
      ensures ImportCheck(parsed).Err? || !confirmed ==>
        memos == old(memos) && currentIndex == old(currentIndex)
        && editorEnabled == old(editorEnabled) && disk == old(disk)
      ensures ImportCheck(parsed).Ok? && confirmed ==>
        Some(Arr(memos)) == parsed && currentIndex == -1 && !editorEnabled && Synced()
        && outcome == (if Listable(memos) then Imported else ImportedThenFailed)
      ensures outcome == ImportedThenFailed ==> disk.Some? && !Listable(disk.value)
    {
      var check := ImportCheck(parsed);
      if check.Err? {
        return Rejected(check.error);
      }
      if !confirmed {
        return Declined;
      }
      memos := check.value;
      SaveMemos();
      currentIndex := -1;
      ToggleRightPanel(false);
      outcome := if Listable(memos) then Imported else ImportedThenFailed;
    }

    /** The ".txt" branch of export_memos: four writes per memo, in store
        order, until a lookup raises. */
    method ExportTxt() returns (out: TxtOutput)
      ensures out == TxtFile(memos)
    {
      var text := "";
      var i := 0;
      assert memos[0..] == memos;
      while i < |memos|
        invariant 0 <= i <= |memos|
        invariant TxtFile(memos) == After(text, TxtFile(memos[i..]))
      {
        assert memos[i..][0] == memos[i] && memos[i..][1..] == memos[i + 1..];
        ghost var done := text;
        var title := Field(memos[i], "title");
        if title.None? {
          return TxtOutput(text, true);
        }
        text := text + TitleLine(title.value);
        text := text + DashLine;
        var content := Field(memos[i], "content");
        WritesAddUp(done, title.value, if content.Some? then content.value else "");
        if content.None? {
          return TxtOutput(text, true);
        }
        text := text + ContentLines(content.value);
        text := text + EqualsLines;
        AfterAfter(done, Block(title.value, content.value), TxtFile(memos[i + 1..]));
        i := i + 1;
      }
      out := TxtOutput(text, false);
    }
  }
}
