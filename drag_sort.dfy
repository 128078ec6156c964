/**
 * The drag-to-reorder list: while an item is dragged, entering another row moves the
 * dragged item to that row's position at once (remove it, insert it again), and the drag
 * reference follows it, so a long drag is a chain of such moves.
 */
module DragSort {
  import opened Wrappers

  // ---------------------------------------------------------------------------
  // Array.prototype.splice, in the two forms the handler uses

  /** `s.splice(i, 1)`: the list without its item at i. */
  function RemoveAt<T>(s: seq<T>, i: nat): (r: seq<T>)
    requires i < |s|
    ensures |r| == |s| - 1
    ensures forall k :: 0 <= k < i ==> r[k] == s[k]
    ensures forall k :: i <= k < |r| ==> r[k] == s[k + 1]
  {
    s[..i] + s[i + 1..]
  }

  /** `s.splice(i, 0, x)`: x inserted so that it ends up at position i. */
  function InsertAt<T>(s: seq<T>, i: nat, x: T): (r: seq<T>)
    requires i <= |s|
    ensures |r| == |s| + 1
    ensures r[i] == x
    ensures forall k :: 0 <= k < i ==> r[k] == s[k]
    ensures forall k :: i <= k < |s| ==> r[k + 1] == s[k]
  {
    s[..i] + [x] + s[i..]
  }

  /** Removing what was just inserted gives the list back. */
  lemma RemoveInsert<T>(s: seq<T>, i: nat, x: T)
    requires i <= |s|
    ensures RemoveAt(InsertAt(s, i, x), i) == s
  {
    var r := RemoveAt(InsertAt(s, i, x), i);
    assert forall k :: 0 <= k < |s| ==> r[k] == s[k];
  }

  /** Inserting the removed item where it was gives the list back. */
  lemma InsertRemove<T>(s: seq<T>, i: nat)
    requires i < |s|
    ensures InsertAt(RemoveAt(s, i), i, s[i]) == s
  {
    var r := InsertAt(RemoveAt(s, i), i, s[i]);
    assert forall k :: 0 <= k < |s| ==> r[k] == s[k];
  }

  lemma MultisetRemove<T>(s: seq<T>, i: nat)
    requires i < |s|
    ensures multiset(RemoveAt(s, i)) + multiset{s[i]} == multiset(s)
  {
    assert s == s[..i] + [s[i]] + s[i + 1..];
  }

  lemma MultisetInsert<T>(s: seq<T>, i: nat, x: T)
    requires i <= |s|
    ensures multiset(InsertAt(s, i, x)) == multiset(s) + multiset{x}
  {
    assert s == s[..i] + s[i..];
  }

  // ---------------------------------------------------------------------------
  // One move

  /** The list after the item at `from` is taken out and put back in at `to`. */
  function Move<T>(s: seq<T>, from: nat, to: nat): seq<T>
    requires from < |s| && to < |s|
  {
    InsertAt(RemoveAt(s, from), to, s[from])
  }

  /** A move rearranges the list: same length, same items with the same multiplicities. */
  lemma MovePermutes<T>(s: seq<T>, from: nat, to: nat)
    requires from < |s| && to < |s|
    ensures |Move(s, from, to)| == |s|
    ensures multiset(Move(s, from, to)) == multiset(s)
  {
    MultisetRemove(s, from);
    MultisetInsert(RemoveAt(s, from), to, s[from]);
  }

  /** The dragged item lands on the hovered row. */
  lemma MovePlaces<T>(s: seq<T>, from: nat, to: nat)
    requires from < |s| && to < |s|
    ensures Move(s, from, to)[to] == s[from]
  {
  }

  /** Apart from the dragged item, the list reads the same, in the same order. */
  lemma MoveKeepsOthers<T>(s: seq<T>, from: nat, to: nat)
    requires from < |s| && to < |s|
    ensures RemoveAt(Move(s, from, to), to) == RemoveAt(s, from)
  {
    RemoveInsert(RemoveAt(s, from), to, s[from]);
  }

  /**
   * Where every item goes: the rows between the two positions shift by one towards
   * `from`, the rest stay.
   */
  lemma MoveAt<T>(s: seq<T>, from: nat, to: nat, k: nat)
    requires from < |s| && to < |s| && k < |s|
    ensures k == to ==> Move(s, from, to)[k] == s[from]
    ensures k < from && k < to ==> Move(s, from, to)[k] == s[k]
    ensures k > from && k > to ==> Move(s, from, to)[k] == s[k]
    ensures from <= k < to ==> Move(s, from, to)[k] == s[k + 1]
    ensures to < k <= from ==> Move(s, from, to)[k] == s[k - 1]
  {
  }

  /** Dragging the item back to where it came from undoes the move. */
  lemma MoveBack<T>(s: seq<T>, from: nat, to: nat)
    requires from < |s| && to < |s|
    ensures Move(Move(s, from, to), to, from) == s
  {
    MovePlaces(s, from, to);
    MoveKeepsOthers(s, from, to);
    InsertRemove(s, from);
  }

  /**
   * Two moves in a row, the second starting where the first ended (the drag reference
   * follows the item), are one move from the original position.
   */
  lemma MoveChain<T>(s: seq<T>, a: nat, b: nat, c: nat)
    requires a < |s| && b < |s| && c < |s|
    ensures Move(Move(s, a, b), b, c) == Move(s, a, c)
  {
    MovePlaces(s, a, b);
    MoveKeepsOthers(s, a, b);
  }

  // ---------------------------------------------------------------------------
  // The component's state: the list and the two references

  class DragList<T> {
    var items: seq<T>
    /** dragItemRef: the current position of the dragged item. */
    var dragItem: Option<nat>
    /** dragOverItemRef: the row last entered. */
    var dragOverItem: Option<nat>

    /** The dragged position, when there is one, is a position of the list. */
    predicate Valid()
      reads this
    {
      dragItem.Some? ==> dragItem.value < |items|
    }

    constructor(initial: seq<T>)
      ensures Valid()
      ensures items == initial && dragItem == None && dragOverItem == None
    {
      items := initial;
      dragItem := None;
      dragOverItem := None;
    }

    /** handleDragStart: remember the row the drag began on. */
    method HandleDragStart(index: nat)
      requires Valid() && index < |items|
      modifies this
      ensures Valid()
      ensures dragItem == Some(index)
      ensures items == old(items) && dragOverItem == old(dragOverItem)
    {
      dragItem := Some(index);
    }

    /**
     * handleDragEnter: record the row; unless no drag is active or the row is the dragged
     * item's own, move the item there and follow it.
     */
    method HandleDragEnter(index: nat)
      requires Valid() && index < |items|
      modifies this
      ensures Valid()
      ensures dragOverItem == Some(index)
      ensures old(dragItem) == None || old(dragItem) == Some(index) ==>
        items == old(items) && dragItem == old(dragItem)
      ensures old(dragItem).Some? && old(dragItem) != Some(index) ==>
        items == Move(old(items), old(dragItem).value, index) && dragItem == Some(index)
    {
      dragOverItem := Some(index);
      if dragItem == None || dragItem == Some(index) {
        return;
      }
      var from := dragItem.value;
      var newItems := items;
      var draggedItem := newItems[from];
      newItems := RemoveAt(newItems, from);
      newItems := InsertAt(newItems, index, draggedItem);
      dragItem := Some(index);
      items := newItems;
    }

    /** handleDragEnd: forget both references; the order reached stays. */
    method HandleDragEnd()
      requires Valid()
      modifies this
      ensures Valid()
      ensures dragItem == None && dragOverItem == None && items == old(items)
    {
      dragItem := None;
      dragOverItem := None;
    }
  }
}
