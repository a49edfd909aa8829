/** The doubly linked list of a container's children, whose head's `prev` is the last node. */
module ChildList {

  ghost function Only(item: Item?): set<Item> {
    if item == null then {} else {item}
  }

  ghost predicate Distinct<T>(s: seq<T>) {
    forall i, j :: 0 <= i < j < |s| ==> s[i] != s[j]
  }

  // What the list operations do to the sequence of children.

  ghost function Removed<T>(s: seq<T>, k: nat): (r: seq<T>)
    requires k < |s|
    ensures |r| == |s| - 1 && forall i :: 0 <= i < |r| ==> r[i] == s[if i < k then i else i + 1]
    ensures Distinct(s) ==> Distinct(r) && s[k] !in r
  {
    s[..k] + s[k + 1..]
  }

  ghost function Inserted<T>(s: seq<T>, k: nat, x: T): (r: seq<T>)
    requires k <= |s|
    ensures |r| == |s| + 1 && r[k] == x && forall i :: 0 <= i < |r| && i != k ==> r[i] == s[if i < k then i else i - 1]
    ensures Distinct(s) && x !in s ==> Distinct(r)
  {
    s[..k] + [x] + s[k..]
  }

  class Item {
    var next: Item?
    var prev: Item?
    var child: Item?

    ghost var children: seq<Item>

    /** `child` starts a well-formed chain of exactly `children`. */
    ghost predicate Valid()
      reads this, children
    {
      && this !in children && Distinct(children)
      && child == (if children == [] then null else children[0])
      && Links(children)
    }

    static ghost function After(s: seq<Item>, i: nat): Item?
      requires i < |s|
    {
      if i + 1 < |s| then s[i + 1] else null
    }

    /** The head's `prev` is the last node. */
    static ghost function Before(s: seq<Item>, i: nat): Item
      requires i < |s|
    {
      if i == 0 then s[|s| - 1] else s[i - 1]
    }

    static ghost predicate Links(s: seq<Item>)
      reads s
    {
      && (forall i {:trigger s[i].next} :: 0 <= i < |s| ==> s[i].next == After(s, i))
      && (forall i {:trigger s[i].prev} :: 0 <= i < |s| ==> s[i].prev == Before(s, i))
    }

    constructor ()
      ensures Valid() && children == [] && next == null && prev == null
    {
      next, prev, child, children := null, null, null, [];
    }

    method GetArraySize() returns (size: nat)
      requires Valid()
      ensures size == |children|
    {
      size := 0;
      var c := child;
      while c != null
        invariant 0 <= size <= |children|
        invariant c == if size < |children| then children[size] else null
        decreases |children| - size
      {
        size := size + 1;
        c := c.next;
      }
    }

    method GetArrayItem(index: int) returns (r: Item?)
      requires Valid()
      ensures r == if 0 <= index < |children| then children[index] else null
    {
      if index < 0 {
        return null;
      }
      var left := index;
      r := child;
      ghost var at := 0;
      while r != null && left > 0
        invariant left >= 0 && at + left == index && at <= |children|
        invariant r == if at < |children| then children[at] else null
      {
        left := left - 1;
        r := r.next;
        at := at + 1;
      }
    }

    /** Appends a node; behind other children its `next` is left as it is, so it must be detached. */
    method AddItemToArray(item: Item?) returns (ok: bool)
      requires Valid() && (item != null ==> item !in children)
      requires item != null && item != this && children != [] ==> item.next == null
      modifies this`child, this`children, children`next, children`prev, Only(item)`next, Only(item)`prev
      ensures ok == (item != null && item != this)
      ensures Valid() && children == if ok then old(children) + [item] else old(children)
    {
      if item == null || item == this {
        return false;
      }
      if child == null {
        child := item;
        item.prev := item;
        item.next := null;
      } else if child.prev != null {
        SuffixObject(child.prev, item);
        child.prev := item;
      }
      children := children + [item];
      return true;
    }

    static method SuffixObject(before: Item, item: Item)
      requires before != item
      modifies before`next, item`prev
      ensures before.next == item && item.prev == before
    {
      before.next := item;
      item.prev := before;
    }

    /** Unlinks a child and leaves it pointing nowhere. */
    method DetachItemViaPointer(item: Item?) returns (r: Item?)
      requires Valid() && (item != null ==> item in children)
      modifies this`child, this`children, children`next, children`prev
      ensures r == item && Valid()
      ensures item == null ==> children == old(children)
      ensures item != null ==> item.next == null && item.prev == null
      ensures item != null ==>
        exists k :: 0 <= k < |old(children)| && old(children)[k] == item && children == Removed(old(children), k)
    {
      if item == null {
        return null;
      }
      ghost var s, k := children, 0;
      k :| 0 <= k < |s| && s[k] == item;
      Unlink(item, k);
      RemovedLinks(s, k);
      children := Removed(s, k);
      assert s[k] == item;
      return item;
    }

    /** The pointer changes of a removal. */
    method Unlink(item: Item, ghost k: nat)
      requires Valid() && k < |children| && children[k] == item
      modifies this`child, children`next, children`prev
      ensures child == if k > 0 then children[0] else After(children, 0)
      ensures item.next == null && item.prev == null && WithoutLinks(children, k)
    {
      if item != child {
        item.prev.next := item.next;
      }
      if item.next != null {
        item.next.prev := item.prev;
      }
      if item == child {
        child := item.next;
      } else if item.next == null {
        child.prev := item.prev;
      }
      item.prev := null;
      item.next := null;
    }

    /** The nodes of `s` but the one at `k` are linked past it. */
    static ghost predicate WithoutLinks(s: seq<Item>, k: nat)
      requires k < |s|
      reads s
    {
      && (forall i {:trigger s[i].next} :: 0 <= i < |s| && i != k ==>
            s[i].next == if i + 1 == k then After(s, k) else After(s, i))
      && (forall i {:trigger s[i].prev} :: 0 <= i < |s| && i != k ==>
            s[i].prev == if i == k + 1 || (i == 0 && k == |s| - 1) then Before(s, k) else Before(s, i))
    }

    static lemma RemovedLinks(s: seq<Item>, k: nat)
      requires k < |s| && WithoutLinks(s, k)
      ensures Links(Removed(s, k))
    {
      var r := Removed(s, k);
      forall i | 0 <= i < |r| ensures r[i].next == After(r, i) && r[i].prev == Before(r, i) {
        var j := if i < k then i else i + 1;
        assert r[i] == s[j];
      }
    }

    method DetachItemFromArray(which: int) returns (r: Item?)
      requires Valid()
      modifies this`child, this`children, children`next, children`prev
      ensures Valid()
      ensures if 0 <= which < |old(children)| then
          r == old(children)[which] && r.next == null && r.prev == null
          && children == Removed(old(children), which)
        else r == null && children == old(children)
    {
      var item := GetArrayItem(which);
      r := DetachItemViaPointer(item);
    }

    /** Inserts a node in front of child `which`, or appends it when there is no such child. */
    method InsertItemInArray(which: int, item: Item?) returns (ok: bool)
      requires Valid() && (which >= 0 && item != null ==> item !in children)
      requires 0 <= which < |children| ==> item != this
      requires item != null && item != this && 0 < |children| <= which ==> item.next == null
      modifies this`child, this`children, children`next, children`prev, Only(item)`next, Only(item)`prev
      ensures ok == (which >= 0 && item != null && (which < |old(children)| || item != this)) && Valid()
      ensures !ok ==> children == old(children)
      ensures ok ==>
        var n := if which < |old(children)| then which else |old(children)|;
        children == Inserted(old(children), n, item)
    {
      if which < 0 || item == null {
        return false;
      }
      var after := GetArrayItem(which);
      if after == null {
        ok := AddItemToArray(item);
        return;
      }
      if after != child && after.prev == null {
        return false;
      }
      ghost var s := children;
      LinkBefore(item, after, which);
      InsertedLinks(s, which, item);
      children := Inserted(s, which, item);
      return true;
    }

    /** The pointer changes of an insertion. */
    method LinkBefore(item: Item, after: Item, ghost k: nat)
      requires Valid() && k < |children| && children[k] == after && item !in children && item != this
      modifies this`child, children`next, children`prev, item`next, item`prev
      ensures child == if k > 0 then children[0] else item
      ensures WithLinks(children, k, item)
    {
      item.next := after;
      item.prev := after.prev;
      after.prev := item;
      if after == child {
        child := item;
      } else {
        item.prev.next := item;
      }
    }

    /** `item` is linked in front of the node of `s` at `k`. */
    static ghost predicate WithLinks(s: seq<Item>, k: nat, item: Item)
      requires k < |s|
      reads s, item
    {
      && item.next == s[k] && item.prev == Before(s, k)
      && (forall i {:trigger s[i].next} :: 0 <= i < |s| ==> s[i].next == if i + 1 == k then item else After(s, i))
      && (forall i {:trigger s[i].prev} :: 0 <= i < |s| ==> s[i].prev == if i == k then item else Before(s, i))
    }

    static lemma InsertedLinks(s: seq<Item>, k: nat, item: Item)
      requires k < |s| && WithLinks(s, k, item)
      ensures Links(Inserted(s, k, item))
    {
      var r := Inserted(s, k, item);
      forall i | 0 <= i < |r| ensures r[i].next == After(r, i) && r[i].prev == Before(r, i) {
        if i != k {
          var j := if i < k then i else i - 1;
          assert r[i] == s[j];
        }
      }
    }

    /** Puts a detached node in a child's place; the child is unlinked. */
    method ReplaceItemViaPointer(item: Item?, replacement: Item?) returns (ok: bool)
      requires Valid() && (item != null ==> item in children)
      requires replacement != null && replacement != item ==> replacement !in children && replacement != this
      modifies this`child, this`children, children`next, children`prev, Only(replacement)`next, Only(replacement)`prev
      ensures ok == (item != null && replacement != null) && Valid()
      ensures !ok || replacement == item ==> children == old(children)
      ensures ok && replacement != item ==> item.next == null && item.prev == null
      ensures ok && replacement != item ==>
        exists k :: 0 <= k < |old(children)| && old(children)[k] == item && children == old(children)[k := replacement]
    {
      if child == null || replacement == null || item == null {
        return false;
      }
      if replacement == item {
        return true;
      }
      ghost var s, k := children, 0;
      k :| 0 <= k < |s| && s[k] == item;
      Substitute(item, replacement, k);
      ReplacedLinks(s, k, replacement);
      item.next := null;
      item.prev := null;
      children := s[k := replacement];
      assert s[k] == item;
      return true;
    }

    /** The pointer changes of a replacement. */
    method Substitute(item: Item, replacement: Item, ghost k: nat)
      requires Valid() && k < |children| && children[k] == item
      requires replacement !in children && replacement != this
      modifies this`child, children`next, children`prev, replacement`next, replacement`prev
      ensures child == if k > 0 then children[0] else replacement
      ensures InPlaceLinks(children, k, replacement)
    {
      replacement.next := item.next;
      replacement.prev := item.prev;
      if replacement.next != null {
        replacement.next.prev := replacement;
      }
      if child == item {
        if child.prev == child {
          replacement.prev := replacement;
        }
        child := replacement;
      } else {
        if replacement.prev != null {
          replacement.prev.next := replacement;
        }
        if replacement.next == null {
          child.prev := replacement;
        }
      }
    }

    /** The neighbours of the node of `s` at `k` are linked to `x` instead. */
    static ghost predicate InPlaceLinks(s: seq<Item>, k: nat, x: Item)
      requires k < |s|
      reads s, x
    {
      && x.next == After(s, k) && x.prev == (if |s| == 1 then x else Before(s, k))
      && (forall i {:trigger s[i].next} :: 0 <= i < |s| && i != k ==>
            s[i].next == if i + 1 == k then x else After(s, i))
      && (forall i {:trigger s[i].prev} :: 0 <= i < |s| && i != k ==>
            s[i].prev == if i == k + 1 || (i == 0 && k == |s| - 1) then x else Before(s, i))
    }

    static lemma ReplacedLinks(s: seq<Item>, k: nat, x: Item)
      requires k < |s| && InPlaceLinks(s, k, x)
      ensures Links(s[k := x])
    {
      var r := s[k := x];
      forall i | 0 <= i < |r| ensures r[i].next == After(r, i) && r[i].prev == Before(r, i) {
        if i != k {
          assert r[i] == s[i];
        }
      }
    }

    method ReplaceItemInArray(which: int, replacement: Item?) returns (ok: bool)
      requires Valid()
      requires replacement != null && replacement in children ==>
        0 <= which < |children| && replacement == children[which]
      requires replacement != this
      modifies this`child, this`children, children`next, children`prev, Only(replacement)`next, Only(replacement)`prev
      ensures ok == (0 <= which < |old(children)| && replacement != null) && Valid()
      ensures children == if ok then old(children)[which := replacement] else old(children)
    {
      if which < 0 {
        return false;
      }
      var item := GetArrayItem(which);
      ok := ReplaceItemViaPointer(item, replacement);
    }
  }
}
