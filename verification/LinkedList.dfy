/** The intrusive circular list: nodes that point at each other, read as the sequence of nodes met
  * on the way round.
  */
module LinkedList {
  class Node {
    var prev: Node?
    var next: Node?

    /** `linked_list_create` */
    method Create()
      modifies this
      ensures Ring([this])
    {
      next := this;
      prev := this;
    }
  }

  /** The nodes of `s` are different from each other. */
  ghost predicate Distinct(s: seq<Node>)
  {
    forall i, j :: 0 <= i < j < |s| ==> s[i] != s[j]
  }

  ghost predicate Linked(x: Node, y: Node)
    reads x, y
  {
    x.next == y && y.prev == x
  }

  /** Each node of `s` is linked to the one behind it. */
  ghost predicate Path(s: seq<Node>)
    reads s
  {
    forall i :: 0 <= i < |s| - 1 ==> Linked(s[i], s[i + 1])
  }

  /** `s` goes all the way round, each node met once; `next` and `prev` undo each other. */
  ghost predicate Ring(s: seq<Node>)
    reads s
  {
    s != [] && Distinct(s) && Path(s) && Linked(s[|s| - 1], s[0])
  }

  lemma PathAppend(a: seq<Node>, b: seq<Node>)
    ensures Path(a + b) <==> Path(a) && Path(b) && (a != [] && b != [] ==> Linked(a[|a| - 1], b[0]))
  {
    var s := a + b;
    if Path(s) {
      forall i | 0 <= i < |a| - 1 ensures Linked(a[i], a[i + 1]) {
        assert Linked(s[i], s[i + 1]);
      }
      forall i | 0 <= i < |b| - 1 ensures Linked(b[i], b[i + 1]) {
        assert Linked(s[|a| + i], s[|a| + i + 1]);
      }
      if a != [] && b != [] {
        assert Linked(s[|a| - 1], s[|a|]);
      }
    }
    if Path(a) && Path(b) && (a != [] && b != [] ==> Linked(a[|a| - 1], b[0])) {
      forall i | 0 <= i < |s| - 1 ensures Linked(s[i], s[i + 1]) {
        if i < |a| - 1 {
          assert Linked(a[i], a[i + 1]);
        } else if i >= |a| {
          assert Linked(b[i - |a|], b[i - |a| + 1]);
        }
      }
    }
  }

  lemma DistinctAppend(a: seq<Node>, b: seq<Node>)
    ensures Distinct(a + b) <==> Distinct(a) && Distinct(b) && forall i, j :: 0 <= i < |a| && 0 <= j < |b| ==> a[i] != b[j]
  {
    var s := a + b;
    if Distinct(s) {
      forall i, j | 0 <= i < j < |b| ensures b[i] != b[j] {
        assert s[|a| + i] != s[|a| + j];
      }
      forall i, j | 0 <= i < j < |a| ensures a[i] != a[j] {
        assert s[i] != s[j];
      }
      forall i, j | 0 <= i < |a| && 0 <= j < |b| ensures a[i] != b[j] {
        assert s[i] != s[|a| + j];
      }
    }
  }

  function First(s: seq<Node>): Node
    requires s != []
  {
    s[0]
  }

  function Last(s: seq<Node>): Node
    requires s != []
  {
    s[|s| - 1]
  }

  /** A ring in two parts. */
  lemma RingOfTwo(a: seq<Node>, b: seq<Node>)
    requires a != [] && b != []
    ensures Ring(a + b) <==>
      Distinct(a + b) && Path(a) && Path(b) && Linked(Last(a), First(b)) && Linked(Last(b), First(a))
  {
    PathAppend(a, b);
  }

  /** A ring may be entered anywhere. */
  lemma Rotate(a: seq<Node>, b: seq<Node>)
    ensures Ring(a + b) <==> Ring(b + a)
  {
    if a == [] || b == [] {
      assert a + b == b + a;
    } else {
      RingOfTwo(a, b);
      RingOfTwo(b, a);
      DistinctAppend(a, b);
      DistinctAppend(b, a);
    }
  }

  /** Links inside a path survive changes to the outside of its ends. */
  twostate lemma PathKept(s: seq<Node>)
    requires old(Path(s))
    requires forall i :: 0 <= i < |s| - 1 ==> s[i].next == old(s[i].next)
    requires forall i :: 0 < i < |s| ==> s[i].prev == old(s[i].prev)
    ensures Path(s)
  {
    forall i | 0 <= i < |s| - 1 ensures Linked(s[i], s[i + 1]) {
      assert old(Linked(s[i], s[i + 1]));
    }
  }

  // ---------- Adding and removing ----------

  /** `linked_list_add` */
  method Add(head: Node, item: Node, ghost items: seq<Node>)
    requires Ring([head] + items) && item !in [head] + items
    modifies [head] + items, item
    ensures Ring([head, item] + items)
  {
    ghost var r := items + [head];
    Rotate([head], items);
    DistinctAppend(r, [item]);
    assert head.next == First(r) && First(r) in [head] + items && head == Last(r);
    item.prev := head;
    item.next := head.next;
    item.prev.next := item;
    item.next.prev := item;
    PathKept(r);
    RingOfTwo(r, [item]);
    Rotate(items, [head, item]);
    assert items + [head, item] == r + [item];
  }

  /** `linked_list_add_tail` */
  method AddTail(head: Node, item: Node, ghost items: seq<Node>)
    requires Ring([head] + items) && item !in [head] + items
    modifies [head] + items, item
    ensures Ring([head] + items + [item])
  {
    ghost var r := [head] + items;
    DistinctAppend(r, [item]);
    assert head.prev == Last(r) && Last(r) in r;
    item.next := head;
    item.prev := head.prev;
    item.prev.next := item;
    item.next.prev := item;
    PathKept(r);
    RingOfTwo(r, [item]);
  }

  /** `linked_list_del`, wherever the item is. */
  method Delete(item: Node, ghost before: seq<Node>, ghost behind: seq<Node>)
    requires Ring(before + [item] + behind)
    modifies before, item, behind
    ensures before + behind != [] ==> Ring(before + behind)
    ensures Ring([item])
  {
    Unlink(item, before, behind);
    item.Create();
  }

  /** The first two lines of a removal: the neighbours are joined, the item keeps its links. */
  method Unlink(item: Node, ghost before: seq<Node>, ghost behind: seq<Node>)
    requires Ring(before + [item] + behind)
    modifies before, item, behind
    ensures item !in before + behind
    ensures before + behind != [] ==> Ring(before + behind)
  {
    ghost var r := behind + before;
    Rotate(before + [item], behind);
    assert behind + (before + [item]) == r + [item];
    DistinctAppend(r, [item]);
    Neighbours(r, item);
    assert item.prev in r + [item] && item.next in r + [item];
    assert forall x :: x in r + [item] <==> x in before || x == item || x in behind;
    item.prev.next := item.next;
    item.next.prev := item.prev;
    assert item !in r;
    if r != [] {
      PathKept(r);
      Rotate(behind, before);
    }
  }

  /** Before and behind the last node of a ring. */
  lemma Neighbours(r: seq<Node>, item: Node)
    requires Ring(r + [item])
    ensures r == [] ==> item.prev == item && item.next == item
    ensures r != [] ==> item.prev == Last(r) && item.next == First(r) && Path(r)
  {
    if r != [] {
      RingOfTwo(r, [item]);
    } else {
      assert (r + [item])[0] == item;
    }
  }

  /** `linked_list_shift`: an empty list gives its own head. */
  method Shift(head: Node, ghost items: seq<Node>) returns (shift: Node)
    requires Ring([head] + items)
    modifies [head] + items
    ensures items == [] ==> shift == head && Ring([head])
    ensures items != [] ==> shift == items[0] && Ring([head] + items[1..]) && Ring([shift])
  {
    ghost var s := [head] + items;
    if items == [] {
      assert Linked(s[0], s[0]);
    } else {
      assert Linked(s[0], s[1]);
    }
    shift := head.next;
    ghost var rest := if items == [] then [] else items[1..];
    ghost var r := rest + [head];
    if items != [] {
      assert s == [head, shift] + rest;
      Rotate([head, shift], rest);
      assert rest + [head, shift] == r + [shift];
      Neighbours(r, shift);
      DistinctAppend(r, [shift]);
      assert shift.next == First(r) && First(r) in s;
    }
    head.next := shift.next;
    shift.next.prev := head;
    shift.next := shift;
    shift.prev := shift;
    if items != [] {
      PathKept(r);
      Rotate(rest, [head]);
    }
  }

  /** `linked_list_move_tail`: between two lists, or within one, also when the item is last there
    * already. */
  method MoveTail(to: Node, item: Node, ghost before: seq<Node>, ghost behind: seq<Node>, ghost items: seq<Node>)
    requires Ring(before + [item] + behind)
    requires [to] + items == before + behind || (Ring([to] + items) && Distinct(before + [item] + behind + ([to] + items)))
    modifies before, item, behind, [to] + items
    ensures Ring([to] + items + [item])
    ensures [to] + items == before + behind || before + behind == [] || Ring(before + behind)
  {
    ghost var other, list := before + [item] + behind, [to] + items;
    label Start:
    if list != before + behind {
      Apart(other, list);
      Outside(before, item, behind, list);
    }
    ghost var rest := before + behind;
    assert forall i :: 0 <= i < |rest| ==> rest[i] in other;
    Unlink(item, before, behind);
    if list != before + behind {
      RingKept@Start(list);
    }
    label Unlinked:
    AddTail(to, item, items);
    if list != before + behind && before + behind != [] {
      assert forall i :: 0 <= i < |rest| ==> rest[i] !in list && rest[i] != item;
      RingKept@Unlinked(rest);
    }
  }

  /** A ring none of whose nodes changed is still one. */
  twostate lemma RingKept(s: seq<Node>)
    requires old(Ring(s))
    requires forall i :: 0 <= i < |s| ==> s[i].next == old(s[i].next) && s[i].prev == old(s[i].prev)
    ensures Ring(s)
  {
    PathKept(s);
    assert old(Linked(Last(s), First(s)));
  }

  lemma Apart(a: seq<Node>, b: seq<Node>)
    requires Distinct(a + b)
    ensures forall x :: x in a ==> x !in b
  {
    DistinctAppend(a, b);
  }

  lemma Outside(before: seq<Node>, item: Node, behind: seq<Node>, list: seq<Node>)
    requires Distinct(before + [item] + behind + list)
    ensures forall i :: 0 <= i < |list| ==> list[i] !in before && list[i] != item && list[i] !in behind
  {
    hide Distinct;
    var other := before + [item] + behind;
    Apart(other, list);
    forall i | 0 <= i < |list| ensures list[i] !in before && list[i] != item && list[i] !in behind {
      assert list[i] in list && list[i] !in other;
      assert item in other;
    }
  }

  // ---------- Whole lists ----------

  /** A head and the nodes behind it. */
  lemma Headed(h: Node, items: seq<Node>)
    requires items != []
    ensures Ring([h] + items) <==>
      Distinct([h] + items) && Path(items) && Linked(h, First(items)) && Linked(Last(items), h)
  {
    RingOfTwo([h], items);
  }

  /** `linked_list_empty` */
  method Empty(head: Node, ghost items: seq<Node>) returns (empty: bool)
    requires Ring([head] + items)
    ensures empty <==> items == []
  {
    if items == [] {
      assert Linked(([head] + items)[0], ([head] + items)[0]);
    } else {
      Headed(head, items);
      assert ([head] + items)[0] != ([head] + items)[1];
    }
    empty := head.next == head.prev && head.next == head;
  }

  /** A list, another head and its items, all different nodes. */
  lemma Parts(r: seq<Node>, h: Node, p: seq<Node>)
    requires Distinct(r + ([h] + p))
    ensures Distinct(r) && Distinct(p) && Distinct([h] + p) && Distinct(r + p)
    ensures forall i :: 0 <= i < |r| ==> r[i] != h
    ensures forall j :: 0 <= j < |p| ==> p[j] != h
    ensures forall i, j :: 0 <= i < |r| && 0 <= j < |p| ==> r[i] != p[j]
  {
    var t := [h] + p;
    DistinctAppend(r, t);
    DistinctAppend([h], p);
    assert forall j :: 0 <= j < |p| ==> t[j + 1] == p[j];
    assert t[0] == h && [h][0] == h;
    DistinctAppend(r, p);
  }

  /** `linked_list_splice`: the second list goes to the front of the first. */
  method Splice(head1: Node, head2: Node, ghost items1: seq<Node>, ghost items2: seq<Node>)
    requires Ring([head1] + items1) && Ring([head2] + items2) && Distinct([head1] + items1 + ([head2] + items2))
    modifies [head1] + items1, [head2] + items2
    ensures Ring([head1] + items2 + items1) && Ring([head2])
  {
    hide Distinct;
    var empty := Empty(head2, items2);
    if !empty {
      Rotate([head1], items1);
      RotatedParts(head1, items1, [head2] + items2);
      SpliceItems(head1, head2, items1, items2);
      Rotate(items1, [head1] + items2);
      assert items1 + ([head1] + items2) == items1 + [head1] + items2;
    } else {
      assert [head1] + items2 + items1 == [head1] + items1 && [head2] + items2 == [head2];
    }
  }

  /** The splice itself, on the ring that ends with the first head. */
  method SpliceItems(head1: Node, head2: Node, ghost items: seq<Node>, ghost p: seq<Node>)
    requires Ring(items + [head1]) && p != [] && Ring([head2] + p)
    requires Distinct(items + [head1] + ([head2] + p))
    modifies [head1] + items, [head2] + p
    ensures Ring(items + [head1] + p) && Ring([head2])
  {
    hide Distinct;
    ghost var r := items + [head1];
    Parts(r, head2, p);
    Headed(head2, p);
    assert head1.next == First(r) && head2.prev == Last(p) && head2.next == First(p);
    assert head1 == Last(r) == ([head1] + items)[0] && First(r) in [head1] + items && First(p) in [head2] + p && Last(p) in [head2] + p;
    head1.next.prev := head2.prev;
    head2.prev.next := head1.next;
    head1.next := head2.next;
    head2.next.prev := head1;
    head2.Create();
    PathKept(r);
    PathKept(p);
    RingOfTwo(r, p);
  }

  lemma RotatedParts(h: Node, a: seq<Node>, b: seq<Node>)
    requires Distinct([h] + a + b)
    ensures Distinct(a + [h] + b)
  {
    DistinctAppend([h] + a, b);
    DistinctAppend([h], a);
    DistinctAppend(a, [h]);
    var s, t := [h] + a, a + [h];
    assert forall i :: 0 <= i < |a| ==> t[i] == s[i + 1];
    assert t[|a|] == h == s[0];
    DistinctAppend(t, b);
  }

  /** `linked_list_splice_tail`: the second list goes to the end of the first. */
  method SpliceTail(head1: Node, head2: Node, ghost items1: seq<Node>, ghost items2: seq<Node>)
    requires Ring([head1] + items1) && Ring([head2] + items2) && Distinct([head1] + items1 + ([head2] + items2))
    modifies [head1] + items1, [head2] + items2
    ensures Ring([head1] + items1 + items2) && Ring([head2])
  {
    hide Distinct;
    var empty := Empty(head2, items2);
    if !empty {
      ghost var r := [head1] + items1;
      Headed(head2, items2);
      Parts(r, head2, items2);
      assert head1.prev == Last(r) && head2.prev == Last(items2) && head2.next == First(items2);
      assert Last(r) in r && First(items2) in [head2] + items2 && Last(items2) in [head2] + items2;
      head1.prev.next := head2.next;
      head2.next.prev := head1.prev;
      head1.prev := head2.prev;
      head2.prev.next := head1;
      head2.Create();
      PathKept(r);
      PathKept(items2);
      RingOfTwo(r, items2);
    } else {
      assert [head1] + items1 + items2 == [head1] + items1 && [head2] + items2 == [head2];
    }
  }

  /** `linked_list_swap`: each head gets the other's items. */
  method Swap(rhs: Node, lhs: Node, ghost xs: seq<Node>, ghost ys: seq<Node>)
    requires Ring([rhs] + xs) && Ring([lhs] + ys) && Distinct([rhs] + xs + ([lhs] + ys))
    modifies [rhs] + xs, [lhs] + ys
    ensures Ring([rhs] + ys) && Ring([lhs] + xs)
  {
    hide Distinct;
    TwoLists(rhs, xs, lhs, ys);
    Ends(rhs, xs);
    Ends(lhs, ys);
    var prev, next := rhs.prev, rhs.next;
    rhs.prev, rhs.next := lhs.prev, lhs.next;
    lhs.prev, lhs.next := prev, next;
    if lhs.next == rhs {
      lhs.next := lhs;
    }
    lhs.next.prev := lhs;
    lhs.prev.next := lhs;
    if rhs.next == lhs {
      rhs.next := rhs;
    }
    rhs.next.prev := rhs;
    rhs.prev.next := rhs;
    PathKept(xs);
    PathKept(ys);
    Ends(lhs, xs);
    Ends(rhs, ys);
  }

  /** Two heads and their items, all different nodes. */
  lemma TwoLists(h: Node, p: seq<Node>, g: Node, q: seq<Node>)
    requires Distinct([h] + p + ([g] + q))
    ensures h != g && Distinct(p) && Distinct(q) && Distinct([h] + q) && Distinct([g] + p)
    ensures forall i :: 0 <= i < |p| ==> p[i] != h && p[i] != g
    ensures forall j :: 0 <= j < |q| ==> q[j] != h && q[j] != g
    ensures forall i, j :: 0 <= i < |p| && 0 <= j < |q| ==> p[i] != q[j]
  {
    var s := [h] + p;
    Parts(s, g, q);
    DistinctAppend([h], p);
    assert [h][0] == h == s[0] && [g][0] == g;
    assert forall i :: 0 <= i < |p| ==> p[i] == s[i + 1];
    DistinctAppend([h], q);
    DistinctAppend([g], p);
  }

  /** A ring by its head and the two ends of its items. */
  lemma Ends(h: Node, items: seq<Node>)
    ensures Ring([h] + items) <==>
      && Distinct([h] + items) && Path(items)
      && (if items == [] then Linked(h, h) else Linked(h, First(items)) && Linked(Last(items), h))
    ensures items != [] ==> First(items) in [h] + items && Last(items) in [h] + items
  {
    if items != [] {
      Headed(h, items);
    } else {
      assert [h] + items == [h];
    }
  }

  /** `linked_list_cut_before`: what precedes `item` moves under the first head, whose old links
    * do not matter but for one thing. The guard asks about the first head, so when that head happens
    * to point at the item already nothing is moved; the intended cut is made exactly when it does
    * not, or when there is nothing to move. */
  method CutBefore(head1: Node, head2: Node, item: Node, ghost items: seq<Node>, ghost k: nat)
    requires Ring([head2] + items) && head1 !in [head2] + items && k <= |items|
    requires item == if k < |items| then items[k] else head2
    modifies head1, [head2] + items
    ensures old(head1.next) == item ==> Ring([head1]) && Ring([head2] + items)
    ensures old(head1.next) != item ==> Ring([head1] + items[..k]) && Ring([head2] + items[k..])
    ensures Ring([head1] + items[..k]) && Ring([head2] + items[k..]) <==> old(head1.next) != item || k == 0
  {
    hide Distinct;
    assert items == items[..k] + items[k..];
    if head1.next == item {
      head1.Create();
      CutSkipped(head1, head2, items, k);
    } else {
      CutItems(head1, head2, item, items[..k], items[k..]);
    }
  }

  lemma CutSkipped(head1: Node, head2: Node, items: seq<Node>, k: nat)
    requires Ring([head1]) && Ring([head2] + items) && head1 !in [head2] + items && k <= |items|
    ensures Ring([head1] + items[..k]) && Ring([head2] + items[k..]) <==> k == 0
  {
    assert Linked([head1][0], [head1][0]);
    Ends(head1, items[..k]);
    if k > 0 {
      assert ([head2] + items)[1] == items[0] == First(items[..k]);
    } else {
      assert [head1] + items[..k] == [head1] && items[k..] == items;
    }
  }

  /** The cut itself. */
  method CutItems(head1: Node, head2: Node, item: Node, ghost p: seq<Node>, ghost q: seq<Node>)
    requires Ring([head2] + (p + q)) && head1 !in [head2] + (p + q)
    requires item == if q != [] then First(q) else head2
    modifies head1, [head2] + (p + q)
    ensures Ring([head1] + p) && Ring([head2] + q)
  {
    hide Distinct, Ring;
    CutParts(head2, p, q);
    CutApart(head1, head2, p, q);
    assert head2 in [head2] + (p + q) && item in [head2] + (p + q) && item.prev in [head2] + (p + q) && head2.next in [head2] + (p + q) by {
      assert p != [] ==> First(p) in p && Last(p) in p;
    }
    head1.next := head2.next;
    head1.next.prev := head1;
    head1.prev := item.prev;
    head1.prev.next := head1;
    head2.next := item;
    item.prev := head2;
    PathKept(p);
    PathKept(q);
    Ends(head1, p);
    Ends(head2, q);
  }

  lemma CutApart(g: Node, h: Node, p: seq<Node>, q: seq<Node>)
    requires Distinct([h] + p) && Distinct([h] + q) && g !in [h] + (p + q)
    ensures g != h && Distinct(p) && Distinct(q) && Distinct([g] + p)
    ensures forall i :: 0 <= i < |p| ==> p[i] != g && p[i] != h
    ensures forall j :: 0 <= j < |q| ==> q[j] != g && q[j] != h
  {
    DistinctAppend([h], p);
    DistinctAppend([h], q);
    assert [h][0] == h;
    assert forall i :: 0 <= i < |p| ==> p[i] in [h] + (p + q);
    assert forall j :: 0 <= j < |q| ==> q[j] in [h] + (p + q);
    DistinctAppend([g], p);
  }

  /** A ring cut in three: the head, what is before the cut and what is behind. */
  lemma CutParts(h: Node, p: seq<Node>, q: seq<Node>)
    requires Ring([h] + (p + q))
    ensures Path(p) && Path(q) && Distinct([h] + p) && Distinct([h] + q)
    ensures forall i, j :: 0 <= i < |p| && 0 <= j < |q| ==> p[i] != q[j]
    ensures var item := if q == [] then h else First(q);
      && (if p == [] then Linked(h, item) else Linked(h, First(p)) && Linked(Last(p), item))
      && (q != [] ==> Linked(Last(q), h))
  {
    Ends(h, p + q);
    PathAppend(p, q);
    DistinctAppend([h], p + q);
    DistinctAppend(p, q);
    DistinctAppend([h], p);
    DistinctAppend([h], q);
    assert forall i :: 0 <= i < |p| ==> p[i] == (p + q)[i];
    assert forall i :: 0 <= i < |q| ==> q[i] == (p + q)[|p| + i];
    assert p == [] ==> p + q == q;
    assert q == [] ==> p + q == p;
  }

  /** The guard never fires for a head of a proper list of its own, empty or not. */
  lemma GuardPasses(head1: Node, items1: seq<Node>, head2: Node, items2: seq<Node>, item: Node)
    requires Ring([head1] + items1) && item in [head2] + items2
    requires Distinct([head1] + items1 + ([head2] + items2))
    ensures head1.next != item
  {
    Apart([head1] + items1, [head2] + items2);
    Ends(head1, items1);
    assert head1 in [head1] + items1 && (items1 != [] ==> First(items1) in [head1] + items1);
  }

  /** A first head with a stale link: the list `a, b` should be cut before `b`, and is not. */
  method TwoItems() returns (head: Node, a: Node, b: Node)
    ensures Ring([head] + [a, b]) && fresh([head] + [a, b])
  {
    hide Ring;
    head, a, b := new Node, new Node, new Node;
    head.Create();
    Joins(head, a, b);
    AddTail(head, a, []);
    AddTail(head, b, [a]);
  }

  lemma Joins(head: Node, a: Node, b: Node)
    ensures [head] + [] == [head] && [head] + [] + [a] == [head] + [a] && [head] + [a] + [b] == [head] + [a, b]
  {
  }

  method CutSkippedByStaleHead() returns (head1: Node, head2: Node, a: Node, b: Node)
    ensures Ring([head1]) && Ring([head2] + [a, b])
    ensures !(Ring([head1] + [a]) && Ring([head2] + [b]))
  {
    head2, a, b := TwoItems();
    head1 := new Node;
    head1.next := b;
    CutBefore(head1, head2, b, [a, b], 1);
    assert [a, b][..1] == [a] && [a, b][1..] == [b];
  }
}
