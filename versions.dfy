/** How the two versions of the memo app differ where their behaviour
    overlaps: import validation and the ".txt" export. */
module VersionDiff {
  import opened Wrappers
  import opened JsonValues
  import opened TxtExport
  import Later = AppV250707
  import Earlier = AppV250613

  /** A record passes the earlier version's membership test. */
  lemma RecordHasKeys(m: Json)
    requires IsRecord(m)
    ensures Earlier.HasKeys(m) == Some(true)
  {
  }

  /** The later import check is stricter: whatever it accepts, the earlier
      one accepts as the same list of memos. */
  lemma ImportNarrowed(text: string, parsed: Option<Json>)
    requires Later.ImportCheck(text, parsed).Ok?
    ensures Earlier.ImportCheck(parsed) == Ok(Later.ImportCheck(text, parsed).value)
  {
    var items := Later.ImportCheck(text, parsed).value;
    forall i | 0 <= i < |items|
      ensures Earlier.HasKeys(items[i]) == Some(true)
    {
      RecordHasKeys(items[i]);
    }
  }

  /** The earlier check lets through stores the later one rejects. */
  lemma ImportNarrowedStrictly()
    ensures var parsed := Some(Arr([Atom(Str("title content"))]));
      Earlier.ImportCheck(parsed).Ok? && Later.ImportCheck("[\"title content\"]", parsed).Err?
  {
    Earlier.ImportAcceptsNonRecord();
  }

  /** On a store of records both versions write the same ".txt" file. */
  lemma {:induction false} ExportsAgree(store: seq<Json>)
    requires AllRecords(store)
    ensures Earlier.TxtFile(store) == Later.TxtFile(store)
  {
    if store != [] {
      var t := Field(store[0], "title").value;
      var c := Field(store[0], "content").value;
      assert Earlier.Block(t, c) == Later.Block(t, c);
      assert AllRecords(store[1..]) by {
        assert forall i :: 0 <= i < |store| - 1 ==> store[1..][i] == store[i + 1];
      }
      ExportsAgree(store[1..]);
    }
  }

  /** A dict with a title but no content: the later version writes nothing
      of it, the earlier one leaves its title and dash lines in the file. */
  lemma ExportsDifferOnMissingContent(title: string)
    ensures var store := [Obj(map["title" := Str(title)])];
      && Later.TxtFile(store) == TxtOutput("", true)
      && Earlier.TxtFile(store) == TxtOutput("제목: " + title + "\n" + Dashes + "\n", true)
  {
  }
}
