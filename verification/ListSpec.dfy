/**
 What the list operations do to the sequence of items of a list (source/tbx_list.c).  An item
 is named by its first occurrence.
 */
module ListSpec {
  import opened Sequences

  function SeqInsert<T>(xs: seq<T>, k: nat, x: T): (r: seq<T>)
    requires k <= |xs|
    ensures |r| == |xs| + 1
    ensures forall i {:trigger r[i]} | 0 <= i <= |xs| ::
              r[i] == if i < k then xs[i] else if i == k then x else xs[i - 1]
  {
    xs[..k] + [x] + xs[k..]
  }

  function SeqRemove<T>(xs: seq<T>, k: nat): (r: seq<T>)
    requires k < |xs|
    ensures |r| == |xs| - 1
    ensures forall i {:trigger r[i]} | 0 <= i < |xs| - 1 ::
              r[i] == if i < k then xs[i] else xs[i + 1]
  {
    xs[..k] + xs[k + 1..]
  }

  /** The place of the first occurrence, or the length if there is none. */
  function FirstIndex(items: seq<int>, item: int): (k: nat)
    ensures k <= |items| && item !in items[..k]
    ensures k < |items| ==> items[k] == item
    ensures k < |items| <==> item in items
  {
    if items == [] then 0
    else if items[0] == item then 0
    else
      var k := 1 + FirstIndex(items[1..], item);
      assert items[..k] == [items[0]] + items[1..][..k - 1];
      k
  }

  /** One step of a search from the front. */
  lemma FirstIndexStep(items: seq<int>, item: int, k: nat)
    requires k <= FirstIndex(items, item) && k < |items|
    ensures if items[k] == item then FirstIndex(items, item) == k else k < FirstIndex(items, item)
  {
    var f := FirstIndex(items, item);
    if k < f {
      assert items[..f][k] == items[k];
    }
  }

  function InsertBefore(items: seq<int>, ref: int, item: int): seq<int>
    requires ref in items
  {
    SeqInsert(items, FirstIndex(items, ref), item)
  }

  function InsertAfter(items: seq<int>, ref: int, item: int): seq<int>
    requires ref in items
  {
    SeqInsert(items, FirstIndex(items, ref) + 1, item)
  }

  lemma InsertFirst(items: seq<int>, item: int)
    ensures SeqInsert(items, 0, item) == [item] + items
  {
  }

  lemma InsertLast(items: seq<int>, item: int)
    ensures SeqInsert(items, |items|, item) == items + [item]
  {
  }

  function RemoveFirst(items: seq<int>, item: int): seq<int>
    requires item in items
  {
    SeqRemove(items, FirstIndex(items, item))
  }

  /** The list with the items at two places overwritten. */
  function Overwrite(items: seq<int>, i: nat, j: nat, x: int, y: int): (r: seq<int>)
    requires i < |items| && j < |items|
    ensures |r| == |items|
  {
    items[i := x][j := y]
  }

  function Exchange(items: seq<int>, item1: int, item2: int): seq<int> {
    var i, j := FirstIndex(items, item1), FirstIndex(items, item2);
    if i < |items| && j < |items| then Overwrite(items, i, j, item2, item1) else items
  }

  /** The item at a place, or NULL (0) outside of the list. */
  function ItemAt(items: seq<int>, k: int): int {
    if 0 <= k < |items| then items[k] else 0
  }

  function FirstItem(items: seq<int>): int {
    ItemAt(items, 0)
  }

  function LastItem(items: seq<int>): int {
    ItemAt(items, |items| - 1)
  }

  function ItemBefore(items: seq<int>, ref: int): int {
    if ref in items then ItemAt(items, FirstIndex(items, ref) - 1) else 0
  }

  function ItemBehind(items: seq<int>, ref: int): int {
    if ref in items then ItemAt(items, FirstIndex(items, ref) + 1) else 0
  }

  // ---------------------------------------------------------------- laws

  lemma FirstIndexIs(items: seq<int>, item: int, k: nat)
    requires k < |items| && items[k] == item && item !in items[..k]
    ensures FirstIndex(items, item) == k
  {
  }

  /** Removing an item that was inserted next to another one restores the list. */
  lemma RemoveUndoesInsert(items: seq<int>, ref: int, item: int)
    requires ref in items && item !in items
    ensures RemoveFirst(InsertBefore(items, ref, item), item) == items
    ensures RemoveFirst(InsertAfter(items, ref, item), item) == items
  {
    RemoveUndoesInsertAt(items, FirstIndex(items, ref), item);
    RemoveUndoesInsertAt(items, FirstIndex(items, ref) + 1, item);
  }

  lemma RemoveUndoesInsertAt(items: seq<int>, k: nat, item: int)
    requires k <= |items| && item !in items
    ensures RemoveFirst(SeqInsert(items, k, item), item) == items
  {
    assert SeqInsert(items, k, item)[..k] == items[..k];
    FirstIndexIs(SeqInsert(items, k, item), item, k);
  }

  /** A new item is found right beside the item that it was inserted next to. */
  lemma InsertedIsNeighbour(items: seq<int>, ref: int, item: int)
    requires ref in items && item !in items
    ensures ItemBefore(InsertBefore(items, ref, item), ref) == item
    ensures ItemBehind(InsertAfter(items, ref, item), ref) == item
    ensures ItemBehind(InsertBefore(items, ref, item), item) == ref
    ensures ItemBefore(InsertAfter(items, ref, item), item) == ref
  {
    var k := FirstIndex(items, ref);
    var b, a := InsertBefore(items, ref, item), InsertAfter(items, ref, item);
    assert b[..k + 1] == items[..k] + [item] && b[..k] == items[..k];
    assert a[..k + 1] == items[..k + 1] && a[..k] == items[..k];
    assert items[..k + 1] == items[..k] + [items[k]];
    FirstIndexIs(b, ref, k + 1);
    FirstIndexIs(b, item, k);
    FirstIndexIs(a, ref, k);
    FirstIndexIs(a, item, k + 1);
  }

  /** In a list without duplicates exchanging the same two items again restores the list. */
  lemma ExchangeTwice(items: seq<int>, item1: int, item2: int)
    requires Distinct(items)
    ensures Exchange(Exchange(items, item1, item2), item1, item2) == items
  {
    var i, j := FirstIndex(items, item1), FirstIndex(items, item2);
    if i < |items| && j < |items| {
      ExchangedIndices(items, item1, item2);
    }
  }

  /** Both ends of a list. */
  lemma EndsOf(items: seq<int>, x: int)
    ensures FirstItem([x] + items) == x && LastItem(items + [x]) == x
    ensures FirstItem([]) == 0 && LastItem([]) == 0
  {
  }

  lemma FirstIndexBehind(a: seq<int>, x: int, b: seq<int>)
    requires x !in a
    ensures FirstIndex(a + [x] + b, x) == |a|
  {
    assert (a + [x] + b)[..|a|] == a;
    FirstIndexIs(a + [x] + b, x, |a|);
  }

  /** The neighbours of the first occurrence are the ends of what is on both sides of it. */
  lemma NeighboursOf(a: seq<int>, x: int, b: seq<int>)
    requires x !in a
    ensures ItemBefore(a + [x] + b, x) == LastItem(a) && ItemBehind(a + [x] + b, x) == FirstItem(b)
    ensures ItemBefore(a, x) == 0 && ItemBehind(a, x) == 0
  {
    FirstIndexBehind(a, x, b);
  }

  /** A new item goes right beside the first occurrence of its reference. */
  lemma InsertedBeside(a: seq<int>, ref: int, b: seq<int>, item: int)
    requires ref !in a
    ensures InsertBefore(a + [ref] + b, ref, item) == a + [item, ref] + b
    ensures InsertAfter(a + [ref] + b, ref, item) == a + [ref, item] + b
  {
    FirstIndexBehind(a, ref, b);
    hide FirstIndex;
  }

  /** Only the first occurrence goes. */
  lemma RemovedFromBetween(a: seq<int>, item: int, b: seq<int>)
    requires item !in a
    ensures RemoveFirst(a + [item] + b, item) == a + b
  {
    FirstIndexBehind(a, item, b);
    hide FirstIndex;
  }

  /** The first occurrences of two items change places, in either order, and nothing else does. */
  lemma ExchangedPlaces(a: seq<int>, x: int, b: seq<int>, y: int, c: seq<int>)
    requires x !in a && y !in a && y !in b && x != y
    ensures Exchange(a + [x] + b + [y] + c, x, y) == a + [y] + b + [x] + c
    ensures Exchange(a + [x] + b + [y] + c, y, x) == a + [y] + b + [x] + c
  {
    var items := a + [x] + b + [y] + c;
    assert items == a + [x] + (b + [y] + c) && items == (a + [x] + b) + [y] + c;
    FirstIndexBehind(a, x, b + [y] + c);
    FirstIndexBehind(a + [x] + b, y, c);
    hide FirstIndex;
  }

  /** What is at every place after an exchange; without one of the items nothing happens. */
  lemma ExchangeMeans(items: seq<int>, item1: int, item2: int)
    ensures var r := Exchange(items, item1, item2);
      if item1 in items && item2 in items then
        var i, j := FirstIndex(items, item1), FirstIndex(items, item2);
        && |r| == |items| && r[i] == item2 && r[j] == item1
        && forall k | 0 <= k < |items| && k != i && k != j :: r[k] == items[k]
      else r == items
  {
    hide FirstIndex;
  }

  /** In a list without duplicates each item is found then where the other one was. */
  lemma ExchangedIndices(items: seq<int>, item1: int, item2: int)
    requires Distinct(items) && item1 in items && item2 in items
    ensures var r := Exchange(items, item1, item2);
      FirstIndex(r, item1) == FirstIndex(items, item2) && FirstIndex(r, item2) == FirstIndex(items, item1)
  {
    var i, j := FirstIndex(items, item1), FirstIndex(items, item2);
    var r := Exchange(items, item1, item2);
    assert item1 !in r[..j] && item2 !in r[..i];
    FirstIndexIs(r, item1, j);
    FirstIndexIs(r, item2, i);
  }
}
