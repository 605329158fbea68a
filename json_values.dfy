/** The values that json.load returns and the memo store holds, and the
    Python operations the memo app applies to one of them. */
module JsonValues {
  import opened Wrappers
  import opened PyText
  import MemoList

  /** A JSON scalar: None, a bool, an int or a str once decoded. */
  datatype Scalar = Null | Bool(b: bool) | Num(n: int) | Str(s: string)

  /** A decoded JSON value: a scalar, a list, or a dict whose values are
      scalars. Key order of a dict does not matter to the app. */
  datatype Json = Atom(scalar: Scalar) | Arr(items: seq<Json>) | Obj(fields: map<string, Scalar>)

  /** The record the app itself writes: {"title": title, "content": content}. */
  function Record(title: string, content: string): Json {
    Obj(map["title" := Str(title), "content" := Str(content)])
  }

  /** The blank memo that "add" inserts. */
  const NewMemo: Json := Record("새 메모", "")

  /** Python's str(v), which an f-string applies to an interpolated value. */
  function PyStr(v: Scalar): string {
    match v
    case Null => "None"
    case Bool(b) => if b then "True" else "False"
    case Num(n) => IntToString(n)
    case Str(s) => s
  }

  /** Python's `key in m` for a string key: membership among a dict's keys,
      equality with an element of a list, a substring test on a str, and
      None where Python raises TypeError (None, bools and numbers). */
  function In(key: string, m: Json): (r: Option<bool>)
    ensures r.None? <==> m.Atom? && !m.scalar.Str?
    ensures m.Obj? ==> r == Some(key in m.fields)
    ensures m.Arr? ==> r == Some(exists i :: 0 <= i < |m.items| && m.items[i] == Atom(Str(key)))
    ensures m.Atom? && m.scalar.Str? ==> r == Some(exists k :: OccursAt(m.scalar.s, key, k))
  {
    if m.Atom? && m.scalar.Str? then
      ContainsAt(m.scalar.s, key);
      Some(Contains(m.scalar.s, key))
    else
      match m
      case Obj(fields) => Some(key in fields)
      case Arr(items) => Some(Atom(Str(key)) in items)
      case Atom(_) => None
  }

  /** f"{m[key]}": the text of a dict's value, or None where `m[key]`
      raises (KeyError on a dict without the key, TypeError otherwise). */
  function Field(m: Json, key: string): (r: Option<string>)
    ensures r.Some? <==> m.Obj? && key in m.fields
  {
    if m.Obj? && key in m.fields then Some(PyStr(m.fields[key])) else None
  }

  /** `isinstance(m, dict) and "title" in m and "content" in m`. */
  predicate IsRecord(m: Json) {
    m.Obj? && "title" in m.fields && "content" in m.fields
  }

  predicate AllRecords(s: seq<Json>) {
    forall i :: 0 <= i < |s| ==> IsRecord(s[i])
  }

  /** `memo["title"]` succeeds for every element, so the list view can be
      rebuilt (update_listbox) without raising. */
  predicate Listable(s: seq<Json>) {
    forall i :: 0 <= i < |s| ==> Field(s[i], "title").Some?
  }

  /** A record the app writes reads back as the strings it was built from,
      and passes both versions' import tests. */
  lemma RecordFields(title: string, content: string)
    ensures Field(Record(title, content), "title") == Some(title)
    ensures Field(Record(title, content), "content") == Some(content)
    ensures IsRecord(Record(title, content))
    ensures In("title", Record(title, content)) == Some(true)
    ensures In("content", Record(title, content)) == Some(true)
  {
  }

  /** A store of records can always be listed. */
  lemma RecordsListable(s: seq<Json>)
    requires AllRecords(s)
    ensures Listable(s)
  {
  }

  /** A swap moves memos without changing any, so a listable store stays
      listable and a store of records stays one. */
  lemma SwapKeepsMemos(s: seq<Json>, i: nat, j: nat)
    requires i < |s| && j < |s|
    ensures Listable(s) ==> Listable(MemoList.Swap(s, i, j))
    ensures AllRecords(s) ==> AllRecords(MemoList.Swap(s, i, j))
  {
    var t := MemoList.Swap(s, i, j);
    assert forall k :: 0 <= k < |t| ==> t[k] == s[if k == j then i else if k == i then j else k];
  }

  /** Inserting a memo that has a title neither makes nor mends an unlistable
      store. */
  lemma InsertKeepsListable(s: seq<Json>, i: nat, x: Json)
    requires i <= |s| && Field(x, "title").Some?
    ensures Listable(MemoList.InsertAt(s, i, x)) <==> Listable(s)
  {
    var t := MemoList.InsertAt(s, i, x);
    if Listable(t) {
      forall k | 0 <= k < |s|
        ensures Field(s[k], "title").Some?
      {
        if k < i {
          assert t[k] == s[k];
        } else {
          assert t[k + 1] == s[k];
        }
      }
    }
  }
}
