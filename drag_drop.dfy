/** Drag-and-drop reordering of a list, as join_pdf.js and change_order_pdf.js
    both implement it: `getDragAfterElement` picks the item the dragged one
    is to be put in front of, and the `dragover` handler moves the dragged
    item there (or to the end). The list is a sequence of items; element
    geometry is a function giving each item its box, in exact reals. */
module DragDrop {
  import opened Text

  /** The vertical extent of a list item, as `getBoundingClientRect` reports it. */
  datatype Box = Box(top: real, height: real)

  /** `y - box.top - box.height / 2`: negative when the pointer is above the
      item's vertical midpoint. */
  function Offset(box: Box, y: real): real {
    y - box.top - box.height / 2.0
  }

  /** The accumulator of the fold: the best offset so far and whose it is. */
  datatype Closest = Closest(offset: real, index: nat)

  /** The `reduce` of `getDragAfterElement` over the items' offsets, from the
      left, starting from an offset of negative infinity (`None`): an item
      replaces the accumulator when its offset is negative and strictly
      greater. The result is the item with the largest negative offset, the
      earliest one among equals, and `None` when no offset is negative. */
  function ClosestBelow(offsets: seq<real>): (r: Option<Closest>)
    ensures r.None? <==> forall j :: 0 <= j < |offsets| ==> offsets[j] >= 0.0
    ensures r.Some? ==>
      && r.value.index < |offsets|
      && r.value.offset == offsets[r.value.index]
      && r.value.offset < 0.0
      && (forall j :: 0 <= j < |offsets| && offsets[j] < 0.0 ==> offsets[j] <= r.value.offset)
      && (forall j :: 0 <= j < r.value.index ==> offsets[j] >= 0.0 || offsets[j] < r.value.offset)
  {
    if offsets == [] then None
    else
      var closest := ClosestBelow(offsets[..|offsets| - 1]);
      var offset := offsets[|offsets| - 1];
      if offset < 0.0 && (closest.None? || offset > closest.value.offset)
      then Some(Closest(offset, |offsets| - 1))
      else closest
  }

  /** The offsets of the given items from the pointer, in list order. */
  function Offsets<T>(items: seq<T>, rect: T -> Box, y: real): (r: seq<real>)
    ensures |r| == |items|
    ensures forall j :: 0 <= j < |items| ==> r[j] == Offset(rect(items[j]), y)
  {
    seq(|items|, j requires 0 <= j < |items| => Offset(rect(items[j]), y))
  }

  /** `getDragAfterElement(container, y)` over the items that are not being
      dragged: the index of the item to insert in front of, if any. */
  function DragAfterElement<T>(items: seq<T>, rect: T -> Box, y: real): (r: Option<nat>)
    ensures r.Some? ==> r.value < |items| && Offset(rect(items[r.value]), y) < 0.0
  {
    match ClosestBelow(Offsets(items, rect, y))
    case None => None
    case Some(c) => Some(c.index)
  }

  /** The hit test picks the item whose midpoint is below the pointer and
      nearest to it, the earliest among equally near ones, and none when no
      midpoint is below the pointer. */
  lemma DragAfterElementSpec<T>(items: seq<T>, rect: T -> Box, y: real)
    ensures var r := DragAfterElement(items, rect, y);
      && (r.None? <==> forall j :: 0 <= j < |items| ==> Offset(rect(items[j]), y) >= 0.0)
      && (r.Some? ==>
        && r.value < |items|
        && Offset(rect(items[r.value]), y) < 0.0
        && (forall j :: 0 <= j < |items| && Offset(rect(items[j]), y) < 0.0 ==>
              Offset(rect(items[j]), y) <= Offset(rect(items[r.value]), y))
        && (forall j :: 0 <= j < r.value ==>
              Offset(rect(items[j]), y) >= 0.0 || Offset(rect(items[j]), y) < Offset(rect(items[r.value]), y)))
  {
    var offsets := Offsets(items, rect, y);
    var c := ClosestBelow(offsets);
    assert forall j :: 0 <= j < |items| ==> offsets[j] == Offset(rect(items[j]), y);
  }

  /** No item occurs twice: list items are distinct DOM nodes. */
  ghost predicate Distinct<T(!new)>(s: seq<T>) {
    forall x :: multiset(s)[x] <= 1
  }

  /** The list without `x`, as `querySelectorAll('li:not(.dragging)')` sees
      it when `x` is the dragged item. */
  function Without<T(==)>(s: seq<T>, x: T): (r: seq<T>)
    ensures multiset(r) == multiset(s)[x := 0]
    ensures x !in r
  {
    if s == [] then []
    else
      assert s == [s[0]] + s[1..];
      (if s[0] == x then [] else [s[0]]) + Without(s[1..], x)
  }

  lemma {:induction false} WithoutAppend<T>(a: seq<T>, b: seq<T>, x: T)
    ensures Without(a + b, x) == Without(a, x) + Without(b, x)
  {
    if a == [] {
      assert a + b == b;
    } else {
      assert (a + b)[0] == a[0];
      assert (a + b)[1..] == a[1..] + b;
      WithoutAppend(a[1..], b, x);
    }
  }

  lemma {:induction false} WithoutAbsent<T>(s: seq<T>, x: T)
    requires x !in s
    ensures Without(s, x) == s
  {
    if s != [] {
      WithoutAbsent(s[1..], x);
    }
  }

  /** The list after a `dragover` that moved `dragged`: the dragged item is
      taken out and put back in front of the hit item, or at the end
      (`appendChild` / `insertBefore` move a node that is already a child). */
  function DropAt<T(==)>(items: seq<T>, dragged: T, rect: T -> Box, y: real): (r: seq<T>)
    ensures |r| == |Without(items, dragged)| + 1 && dragged in r
  {
    var others := Without(items, dragged);
    match DragAfterElement(others, rect, y)
    case None => others + [dragged]
    case Some(k) =>
      var r := others[..k] + [dragged] + others[k..];
      assert r[k] == dragged;
      r
  }

  /** A move keeps the list a permutation of itself and keeps it free of
      duplicates. */
  lemma DropAtPermutes<T(!new)>(items: seq<T>, dragged: T, rect: T -> Box, y: real)
    requires Distinct(items) && dragged in items
    ensures multiset(DropAt(items, dragged, rect, y)) == multiset(items)
    ensures Distinct(DropAt(items, dragged, rect, y))
  {
    var others := Without(items, dragged);
    var r := DropAt(items, dragged, rect, y);
    assert multiset(items)[dragged] == 1;
    assert multiset(others) + multiset{dragged} == multiset(items);
    match DragAfterElement(others, rect, y)
    case None =>
      assert r == others + [dragged];
    case Some(k) =>
      assert r == others[..k] + [dragged] + others[k..];
      assert others == others[..k] + others[k..];
      assert multiset(r) == multiset(others[..k]) + multiset{dragged} + multiset(others[k..]);
  }

  /** Taking `x` out again after inserting it between two parts without it
      gives back the two parts. */
  lemma WithoutInserted<T>(before: seq<T>, x: T, after: seq<T>)
    requires x !in before && x !in after
    ensures Without(before + [x] + after, x) == before + after
  {
    WithoutAbsent(before, x);
    WithoutAbsent(after, x);
    assert [x][1..] == [];
    assert Without([x], x) == [] + Without([], x);
    WithoutAppend(before, [x], x);
    assert Without(before + [x], x) == before;
    WithoutAppend(before + [x], after, x);
  }

  /** A move keeps the other items in their relative order. */
  lemma DropAtKeepsOrder<T>(items: seq<T>, dragged: T, rect: T -> Box, y: real)
    ensures Without(DropAt(items, dragged, rect, y), dragged) == Without(items, dragged)
  {
    var others := Without(items, dragged);
    var r := DropAt(items, dragged, rect, y);
    match DragAfterElement(others, rect, y)
    case None =>
      assert r == others + [dragged] + [];
      WithoutInserted(others, dragged, []);
    case Some(k) =>
      assert r == others[..k] + [dragged] + others[k..];
      assert others[..k] + others[k..] == others;
      WithoutInserted(others[..k], dragged, others[k..]);
  }

  /** Where the dragged item lands: immediately in front of the item the hit
      test picked, or last when it picked none. */
  lemma DropAtPlacement<T>(items: seq<T>, dragged: T, rect: T -> Box, y: real)
    ensures var others := Without(items, dragged);
      var r := DropAt(items, dragged, rect, y);
      |r| == |others| + 1
      && match DragAfterElement(others, rect, y)
         case None => r[|r| - 1] == dragged
         case Some(k) => k < |others| && r[k] == dragged && r[k + 1] == others[k]
  {
    var others := Without(items, dragged);
    DragAfterElementSpec(others, rect, y);
  }

  /** The list of a drag-and-drop page: its items in display order, the item
      recorded by `dragstart` (`draggedItem`), and as a ghost the multiset of
      items it was filled with, which dragging never changes. */
  class SortableList<T(==,!new)> {
    var items: seq<T>
    var dragged: Option<T>
    ghost var Elements: multiset<T>

    ghost predicate Valid()
      reads this
    {
      multiset(items) == Elements && Distinct(items)
    }

    constructor ()
      ensures Valid() && items == [] && dragged == None
    {
      items, dragged := [], None;
      Elements := multiset{};
    }

    /** `list.innerHTML = ''`; `draggedItem` is left as it was. */
    method Clear()
      modifies this
      ensures Valid() && items == [] && dragged == old(dragged)
    {
      items := [];
      Elements := multiset{};
    }

    /** `list.appendChild(item)` for a new item. */
    method Append(x: T)
      requires Valid() && x !in items
      modifies this
      ensures Valid() && items == old(items) + [x] && dragged == old(dragged)
    {
      items := items + [x];
      Elements := Elements + multiset{x};
    }

    /** The `dragstart` handler: `draggedItem = e.target`. */
    method DragStart(x: T)
      modifies this`dragged
      ensures dragged == Some(x)
    {
      dragged := Some(x);
    }

    /** The `dragend` handler: `draggedItem = null`. */
    method DragEnd()
      modifies this`dragged
      ensures dragged == None
    {
      dragged := None;
    }

    /** The `dragover` handler at pointer height `y`. When no item of the list
        is being dragged (none was picked up, or it was removed when the list
        was refilled) nothing moves. Items never enter or leave the list. */
    method DragOver(y: real, rect: T -> Box)
      requires Valid()
      modifies this`items
      ensures Valid() && Elements == old(Elements)
      ensures dragged.Some? && dragged.value in old(items) ==>
        items == DropAt(old(items), dragged.value, rect, y)
      ensures !(dragged.Some? && dragged.value in old(items)) ==> items == old(items)
    {
      if dragged.Some? && dragged.value in items {
        DropAtPermutes(items, dragged.value, rect, y);
        items := DropAt(items, dragged.value, rect, y);
      }
    }
  }
}
