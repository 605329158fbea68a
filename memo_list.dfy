/** The list operations the memo app performs on its store, as Python's
    list.insert, del / list.pop and the pop-then-insert reorder, together
    with the selection invariant both app versions keep. */
module MemoList {

  /** `s.insert(i, x)` for an in-range position. */
  function InsertAt<T>(s: seq<T>, i: nat, x: T): (r: seq<T>)
    requires i <= |s|
    ensures |r| == |s| + 1 && r[i] == x
    ensures forall j :: 0 <= j < i ==> r[j] == s[j]
    ensures forall j :: i < j < |r| ==> r[j] == s[j - 1]
  {
    s[..i] + [x] + s[i..]
  }

  /** `del s[i]`, and the list that `s.pop(i)` leaves behind. */
  function RemoveAt<T>(s: seq<T>, i: nat): (r: seq<T>)
    requires i < |s|
    ensures |r| == |s| - 1
    ensures forall j :: 0 <= j < i ==> r[j] == s[j]
    ensures forall j :: i <= j < |r| ==> r[j] == s[j + 1]
  {
    s[..i] + s[i + 1..]
  }

  /** Inserting adds exactly the new element; deleting takes away exactly
      the deleted one. */
  lemma InsertRemoveMultiset<T>(s: seq<T>, i: nat, x: T)
    requires i <= |s|
    ensures multiset(InsertAt(s, i, x)) == multiset(s) + multiset{x}
    ensures i < |s| ==> multiset(RemoveAt(s, i)) == multiset(s) - multiset{s[i]}
  {
    assert s == s[..i] + s[i..];
    if i < |s| {
      assert s == s[..i] + [s[i]] + s[i + 1..];
    }
  }

  /** Exchanging the elements at two positions: the reference definition of
      what a reorder step should do. */
  function Swap<T>(s: seq<T>, i: nat, j: nat): seq<T>
    requires i < |s| && j < |s|
  {
    s[i := s[j]][j := s[i]]
  }

  /** `s.insert(i - 1, s.pop(i))`: move_memo_up's reorder. */
  function MoveUp<T>(s: seq<T>, i: nat): seq<T>
    requires 0 < i < |s|
  {
    InsertAt(RemoveAt(s, i), i - 1, s[i])
  }

  /** `s.insert(i + 1, s.pop(i))`: move_memo_down's reorder. */
  function MoveDown<T>(s: seq<T>, i: nat): seq<T>
    requires i + 1 < |s|
  {
    InsertAt(RemoveAt(s, i), i + 1, s[i])
  }

  /** A swap keeps the length and the multiset of elements. */
  lemma SwapPermutes<T>(s: seq<T>, i: nat, j: nat)
    requires i < |s| && j < |s|
    ensures |Swap(s, i, j)| == |s|
    ensures multiset(Swap(s, i, j)) == multiset(s)
  {
    var t := s[i := s[j]];
    assert multiset(t) == multiset(s) - multiset{s[i]} + multiset{s[j]};
  }

  /** Pop-then-insert one place earlier exchanges the memo with its upper
      neighbour and moves nothing else. */
  lemma MoveUpSwaps<T>(s: seq<T>, i: nat)
    requires 0 < i < |s|
    ensures MoveUp(s, i) == Swap(s, i - 1, i)
  {
    var r := MoveUp(s, i);
    var w := Swap(s, i - 1, i);
    assert |r| == |w|;
    forall k | 0 <= k < |r|
      ensures r[k] == w[k]
    {
      if k < i - 1 {
      } else if k == i - 1 {
      } else if k == i {
      } else {
      }
    }
  }

  /** Pop-then-insert one place later exchanges the memo with its lower
      neighbour and moves nothing else. */
  lemma MoveDownSwaps<T>(s: seq<T>, i: nat)
    requires i + 1 < |s|
    ensures MoveDown(s, i) == Swap(s, i, i + 1)
  {
    var r := MoveDown(s, i);
    var w := Swap(s, i, i + 1);
    assert |r| == |w|;
    forall k | 0 <= k < |r|
      ensures r[k] == w[k]
    {
      if k < i {
      } else if k == i {
      } else if k == i + 1 {
      } else {
      }
    }
  }

  lemma SwapTwice<T>(s: seq<T>, i: nat, j: nat)
    requires i < |s| && j < |s|
    ensures Swap(Swap(s, i, j), i, j) == s
  {
    var r := Swap(Swap(s, i, j), i, j);
    assert |r| == |s|;
    forall k | 0 <= k < |s|
      ensures r[k] == s[k]
    {
    }
  }

  /** Moving a memo up and then down again restores the store. */
  lemma MoveUpThenDown<T>(s: seq<T>, i: nat)
    requires 0 < i < |s|
    ensures |MoveUp(s, i)| == |s|
    ensures MoveDown(MoveUp(s, i), i - 1) == s
  {
    MoveUpSwaps(s, i);
    MoveDownSwaps(Swap(s, i - 1, i), i - 1);
    SwapTwice(s, i - 1, i);
  }

  /** Moving a memo down and then up again restores the store. */
  lemma MoveDownThenUp<T>(s: seq<T>, i: nat)
    requires i + 1 < |s|
    ensures |MoveDown(s, i)| == |s|
    ensures MoveUp(MoveDown(s, i), i + 1) == s
  {
    MoveDownSwaps(s, i);
    MoveUpSwaps(Swap(s, i, i + 1), i + 1);
    SwapTwice(s, i, i + 1);
  }

  /** Inserting and then deleting at the same position gives the list back,
      and so does deleting and re-inserting the deleted element. */
  lemma InsertRemoveInverse<T>(s: seq<T>, i: nat, x: T)
    requires i <= |s|
    ensures RemoveAt(InsertAt(s, i, x), i) == s
    ensures i < |s| ==> InsertAt(RemoveAt(s, i), i, s[i]) == s
  {
  }

  /** The selection invariant: `current_index` is -1 or a valid position, and
      the editor panel is enabled exactly when a memo is selected. */
  predicate SelectionOk(size: nat, index: int, editorEnabled: bool) {
    (index == -1 || 0 <= index < size) && (editorEnabled <==> index != -1)
  }

  /** Where add_memo inserts the blank memo: right after the selection, or at
      the end when nothing is selected. */
  function AddPosition(size: nat, index: int): nat
    requires index == -1 || 0 <= index < size
  {
    if index != -1 then index + 1 else size
  }
}
