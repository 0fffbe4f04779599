/** The singly linked list with first and last links (threads/list.cc), and the
    sequence of keyed items it stands for. */
module Lists {
  import opened Basics

  datatype Keyed<+T> = Keyed(item: T, key: int)

  // ----- the sequence view

  ghost predicate Sorted<T>(s: seq<Keyed<T>>) {
    forall i, j :: 0 <= i < j < |s| ==> s[i].key <= s[j].key
  }

  /** The first index whose key is greater than `key`. */
  function Position<T>(s: seq<Keyed<T>>, key: int): (p: nat)
    ensures p <= |s|
  {
    if s == [] || key < s[0].key then 0 else 1 + Position(s[1..], key)
  }

  lemma {:induction false} PositionSpec<T>(s: seq<Keyed<T>>, key: int)
    ensures forall i :: 0 <= i < Position(s, key) ==> s[i].key <= key
    ensures Position(s, key) < |s| ==> key < s[Position(s, key)].key
  {
    if s != [] && !(key < s[0].key) {
      PositionSpec(s[1..], key);
    }
  }

  /** s with x put in at index p. */
  function Around<X>(s: seq<X>, p: nat, x: X): (r: seq<X>)
    requires p <= |s|
    ensures |r| == |s| + 1
  {
    s[..p] + [x] + s[p..]
  }

  lemma AroundAt<X>(s: seq<X>, p: nat, x: X, i: nat)
    requires p <= |s| && i <= |s|
    ensures Around(s, p, x)[i] == if i < p then s[i] else if i == p then x else s[i - 1]
  {
  }

  function Inserted<T>(s: seq<Keyed<T>>, x: Keyed<T>): (r: seq<Keyed<T>>)
    ensures |r| == |s| + 1
  {
    Around(s, Position(s, x.key), x)
  }

  lemma InsertedItems<T>(s: seq<Keyed<T>>, x: Keyed<T>)
    ensures multiset(Inserted(s, x)) == multiset(s) + multiset{x}
  {
    var p := Position(s, x.key);
    assert s == s[..p] + s[p..];
  }

  lemma InsertedAt<T>(s: seq<Keyed<T>>, x: Keyed<T>, i: nat)
    requires i <= |s|
    ensures var p := Position(s, x.key);
      Inserted(s, x)[i] == if i < p then s[i] else if i == p then x else s[i - 1]
  {
    AroundAt(s, Position(s, x.key), x, i);
  }

  lemma AroundIsSorted<T>(s: seq<Keyed<T>>, p: nat, x: Keyed<T>)
    requires Sorted(s) && p <= |s|
    requires (forall i :: 0 <= i < p ==> s[i].key <= x.key) && (p < |s| ==> x.key < s[p].key)
    ensures Sorted(Around(s, p, x))
    ensures forall i :: p < i < |s| + 1 ==> x.key < Around(s, p, x)[i].key
  {
    var r := Around(s, p, x);
    forall i | p < i < |s| + 1
      ensures x.key < r[i].key
    {
      AroundAt(s, p, x, i);
      assert s[p].key <= s[i - 1].key;
    }
    forall i, j | 0 <= i < j < |r|
      ensures r[i].key <= r[j].key
    {
      AroundAt(s, p, x, i);
      AroundAt(s, p, x, j);
    }
  }

  /** Inserting keeps a list sorted, and puts the item after every item with the same key. */
  lemma InsertedIsSorted<T>(s: seq<Keyed<T>>, x: Keyed<T>)
    requires Sorted(s)
    ensures Sorted(Inserted(s, x))
    ensures Inserted(s, x)[Position(s, x.key)] == x
    ensures forall i :: Position(s, x.key) < i < |s| + 1 ==> x.key < Inserted(s, x)[i].key
  {
    PositionSpec(s, x.key);
    AroundIsSorted(s, Position(s, x.key), x);
  }

  lemma {:induction false} PositionUnique<T>(s: seq<Keyed<T>>, key: int, p: nat)
    requires p <= |s|
    requires forall i :: 0 <= i < p ==> s[i].key <= key
    requires p < |s| ==> key < s[p].key
    ensures Position(s, key) == p
  {
    if p > 0 {
      assert s[0].key <= key;
      PositionUnique(s[1..], key, p - 1);
    }
  }

  /** Taking the head off a sorted list and inserting it again keeps the items and the order. */
  lemma PutBackItems<T>(s: seq<Keyed<T>>)
    requires Sorted(s) && s != []
    ensures multiset(Inserted(s[1..], s[0])) == multiset(s) && Sorted(Inserted(s[1..], s[0]))
  {
    InsertedIsSorted(s[1..], s[0]);
    InsertedItems(s[1..], s[0]);
    assert s == [s[0]] + s[1..];
  }

  /** How many items have the key of the first. */
  ghost function Group<T>(s: seq<Keyed<T>>): (g: nat)
    requires s != []
    ensures 1 <= g <= |s|
  {
    Position(s, s[0].key)
  }

  lemma GroupSpec<T>(s: seq<Keyed<T>>)
    requires Sorted(s) && s != []
    ensures forall i :: 0 <= i < Group(s) ==> s[i].key == s[0].key
    ensures forall i :: Group(s) <= i < |s| ==> s[0].key < s[i].key
  {
    PositionSpec(s, s[0].key);
  }

  /** s with its first group turned around by r places. */
  ghost function Rotated<T>(s: seq<Keyed<T>>, r: nat): (t: seq<Keyed<T>>)
    requires s != [] && r <= Group(s)
    ensures |t| == |s|
  {
    s[r..Group(s)] + s[..r] + s[Group(s)..]
  }

  lemma RotatedAt<T>(s: seq<Keyed<T>>, r: nat, i: nat)
    requires s != [] && r < Group(s) && i < |s|
    ensures var g := Group(s);
      Rotated(s, r)[i] == if i < g - r then s[r + i] else if i < g then s[i - (g - r)] else s[i]
  {
  }

  /** Turning the first group around does not change which items are in it, or the order of the keys. */
  lemma RotatedIsSorted<T>(s: seq<Keyed<T>>, r: nat)
    requires Sorted(s) && s != [] && r < Group(s)
    ensures Sorted(Rotated(s, r)) && Group(Rotated(s, r)) == Group(s) && Rotated(s, r)[0] == s[r]
  {
    var g, t := Group(s), Rotated(s, r);
    GroupSpec(s);
    forall i | 0 <= i < |s|
      ensures t[i].key == s[i].key
    {
      RotatedAt(s, r, i);
    }
    PositionUnique(t, s[0].key, g);
  }

  /** Taking the head off and inserting it again turns the first group around by one place. */
  lemma PutBackOnce<T>(s: seq<Keyed<T>>)
    requires Sorted(s) && s != []
    ensures Inserted(s[1..], s[0]) == s[1..Group(s)] + [s[0]] + s[Group(s)..]
  {
    GroupSpec(s);
    PositionUnique(s[1..], s[0].key, Group(s) - 1);
    assert s[1..][..Group(s) - 1] == s[1..Group(s)];
  }

  /** Doing so time and again turns it around and around. */
  lemma PutBackRotates<T>(s: seq<Keyed<T>>, r: nat)
    requires Sorted(s) && s != [] && r < Group(s)
    ensures Inserted(Rotated(s, r)[1..], Rotated(s, r)[0]) == Rotated(s, r + 1)
  {
    RotatedIsSorted(s, r);
    PutBackOnce(Rotated(s, r));
    TurnOnce(s, r, Group(s));
  }

  lemma FullTurn<T>(s: seq<Keyed<T>>)
    requires s != []
    ensures Rotated(s, Group(s)) == s == Rotated(s, 0)
  {
  }

  lemma TurnOnce<X>(s: seq<X>, r: nat, g: nat)
    requires r < g <= |s|
    ensures var t := s[r..g] + s[..r] + s[g..];
      t[1..g] + [t[0]] + t[g..] == s[r + 1..g] + s[..r + 1] + s[g..]
  {
    var t := s[r..g] + s[..r] + s[g..];
    assert t[1..g] == s[r + 1..g] + s[..r];
    assert t[g..] == s[g..];
    assert s[..r + 1] == s[..r] + [s[r]];
  }

  /** The list itself is unchanged exactly when the items with the key of the head are all the same. */
  lemma PutBackOrder<T>(s: seq<Keyed<T>>)
    requires Sorted(s) && s != []
    ensures Inserted(s[1..], s[0]) == s <==> forall i :: 0 <= i < |s| && s[i].key == s[0].key ==> s[i] == s[0]
  {
    var g := Group(s);
    var t := s[1..g] + [s[0]] + s[g..];
    GroupSpec(s);
    PutBackOnce(s);
    if t == s {
      forall i | 0 <= i < |s| && s[i].key == s[0].key
        ensures s[i] == s[0]
      {
        ShiftedSame(s, g, i);
      }
    } else {
      var i :| 0 <= i < |s| && t[i] != s[i];
      assert i < g && t[i] == if i < g - 1 then s[i + 1] else s[0];
    }
  }

  lemma {:induction false} ShiftedSame<X>(s: seq<X>, g: nat, i: nat)
    requires i < g <= |s| && s[1..g] + [s[0]] + s[g..] == s
    ensures s[i] == s[0]
  {
    if i > 0 {
      ShiftedSame(s, g, i - 1);
      assert (s[1..g] + [s[0]] + s[g..])[i - 1] == s[i];
    }
  }

  // ----- the linked list

  class ListElement<T> {
    const item: T
    const key: int
    var next: ListElement?<T>

    constructor (itemPtr: T, sortKey: int)
      ensures item == itemPtr && key == sortKey && next == null
    {
      item := itemPtr;
      key := sortKey;
      next := null;
    }
  }

  /** From `node` on, the links run through the nodes, all distinct, and end; the items are the contents. */
  ghost predicate Spells<T>(node: ListElement?<T>, nodes: seq<ListElement<T>>, contents: seq<Keyed<T>>)
    reads nodes
  {
    if nodes == [] then node == null && contents == []
    else
      && node == nodes[0] && nodes[0] !in nodes[1..]
      && contents != [] && contents[0] == Keyed(nodes[0].item, nodes[0].key)
      && Spells(nodes[0].next, nodes[1..], contents[1..])
  }

  /** The same, node by node. */
  ghost predicate Linked<T>(node: ListElement?<T>, nodes: seq<ListElement<T>>, contents: seq<Keyed<T>>)
    reads nodes
  {
    && node == (if nodes == [] then null else nodes[0]) && |contents| == |nodes|
    && (forall i, j :: 0 <= i < j < |nodes| ==> nodes[i] != nodes[j])
    && (forall i {:trigger nodes[i].next} :: 0 <= i < |nodes| ==>
         nodes[i].next == if i + 1 < |nodes| then nodes[i + 1] else null)
    && (forall i :: 0 <= i < |nodes| ==> contents[i] == Keyed(nodes[i].item, nodes[i].key))
  }

  lemma {:induction false} SpellsLinked<T>(node: ListElement?<T>, nodes: seq<ListElement<T>>, contents: seq<Keyed<T>>)
    ensures Spells(node, nodes, contents) <==> Linked(node, nodes, contents)
    decreases |nodes|
  {
    if nodes != [] && contents != [] {
      var rest, tail := nodes[1..], contents[1..];
      SpellsLinked(nodes[0].next, rest, tail);
      if Spells(node, nodes, contents) {
        forall i | 0 <= i < |nodes|
          ensures nodes[i].next == if i + 1 < |nodes| then nodes[i + 1] else null
          ensures contents[i] == Keyed(nodes[i].item, nodes[i].key)
        {
          if i > 0 {
            assert nodes[i] == rest[i - 1] && contents[i] == tail[i - 1];
          }
        }
      }
      if Linked(node, nodes, contents) {
        assert Linked(nodes[0].next, rest, tail) by {
          forall i | 0 <= i < |rest|
            ensures rest[i].next == (if i + 1 < |rest| then rest[i + 1] else null)
          {
            assert rest[i] == nodes[i + 1];
          }
        }
      }
    }
  }

  /** The nodes link up with `element` in between. */
  ghost predicate LinkedAround<T>(nodes: seq<ListElement<T>>, p: nat, element: ListElement<T>)
    requires p <= |nodes|
    reads nodes, element
  {
    && element !in nodes && (forall i, j :: 0 <= i < j < |nodes| ==> nodes[i] != nodes[j])
    && (forall i {:trigger nodes[i].next} :: 0 <= i < |nodes| ==>
         nodes[i].next == if i + 1 == p then element else if i + 1 < |nodes| then nodes[i + 1] else null)
    && element.next == if p < |nodes| then nodes[p] else null
  }

  lemma LinksAround<T>(nodes: seq<ListElement<T>>, p: nat, element: ListElement<T>, i: nat)
    requires p <= |nodes| && i <= |nodes| && LinkedAround(nodes, p, element)
    ensures var nodes' := Around(nodes, p, element);
      nodes'[i].next == if i < |nodes| then nodes'[i + 1] else null
  {
    AroundAt(nodes, p, element, i);
    if i < |nodes| {
      AroundAt(nodes, p, element, i + 1);
    }
  }

  lemma SpellsAround<T>(nodes: seq<ListElement<T>>, contents: seq<Keyed<T>>, p: nat, element: ListElement<T>)
    requires p <= |nodes| == |contents| && LinkedAround(nodes, p, element)
    requires forall i :: 0 <= i < |nodes| ==> contents[i] == Keyed(nodes[i].item, nodes[i].key)
    ensures var nodes' := Around(nodes, p, element);
      Spells(nodes'[0], nodes', Around(contents, p, Keyed(element.item, element.key)))
  {
    var x := Keyed(element.item, element.key);
    var nodes', contents' := Around(nodes, p, element), Around(contents, p, x);
    forall i | 0 <= i <= |nodes|
      ensures contents'[i] == Keyed(nodes'[i].item, nodes'[i].key)
      ensures nodes'[i].next == if i < |nodes| then nodes'[i + 1] else null
    {
      AroundAt(nodes, p, element, i);
      AroundAt(contents, p, x, i);
      LinksAround(nodes, p, element, i);
    }
    forall i, j | 0 <= i < j <= |nodes|
      ensures nodes'[i] != nodes'[j]
    {
      AroundAt(nodes, p, element, i);
      AroundAt(nodes, p, element, j);
    }
    SpellsLinked(nodes'[0], nodes', contents');
  }

  class List<T> {
    var first: ListElement?<T>
    var last: ListElement?<T>
    ghost var nodes: seq<ListElement<T>>
    ghost var Contents: seq<Keyed<T>>
    ghost var Repr: set<object>

    /** The nodes from first on spell Contents and end at last. */
    ghost predicate Valid()
      reads this, Repr
    {
      && Repr == {this} + (set n: object | n in nodes) && Spells(first, nodes, Contents)
      && last == if nodes == [] then null else nodes[|nodes| - 1]
    }

    constructor ()
      ensures Valid() && Contents == [] && Repr == {this}
    {
      first, last, nodes, Contents, Repr := null, null, [], [], {this};
    }

    /** Records that `element`, already linked in, is at index p of the nodes. */
    ghost method Enter(element: ListElement<T>, p: nat)
      requires p <= |nodes| == |Contents| && Repr == {this} + (set n: object | n in nodes) && LinkedAround(nodes, p, element)
      requires forall i :: 0 <= i < |nodes| ==> Contents[i] == Keyed(nodes[i].item, nodes[i].key)
      requires first == Around(nodes, p, element)[0] && last == Around(nodes, p, element)[|nodes|]
      modifies this`nodes, this`Contents, this`Repr
      ensures Valid() && Repr == old(Repr) + {element}
      ensures Contents == Around(old(Contents), p, Keyed(element.item, element.key))
    {
      SpellsAround(nodes, Contents, p, element);
      Contents := Around(Contents, p, Keyed(element.item, element.key));
      nodes := Around(nodes, p, element);
      Repr := Repr + {element};
    }

    method LinkFirst(element: ListElement<T>)
      requires Valid() && element !in Repr && element.next == null
      modifies Repr, element
      ensures Valid() && Repr == old(Repr) + {element}
      ensures Contents == Around(old(Contents), 0, Keyed(element.item, element.key))
    {
      SpellsLinked(first, nodes, Contents);
      if first == null {
        first := element;
        last := element;
      } else {
        element.next := first;
        first := element;
      }
      Enter(element, 0);
    }

    method LinkLast(element: ListElement<T>)
      requires Valid() && element !in Repr && element.next == null
      modifies Repr, element
      ensures Valid() && Repr == old(Repr) + {element}
      ensures Contents == Around(old(Contents), |old(Contents)|, Keyed(element.item, element.key))
    {
      SpellsLinked(first, nodes, Contents);
      if first == null {
        first := element;
        last := element;
      } else {
        last.next := element;
        last := element;
      }
      Enter(element, |nodes|);
    }

    method LinkAfter(ptr: ListElement<T>, element: ListElement<T>, ghost p: nat)
      requires Valid() && element !in Repr && 0 < p <= |nodes| && ptr == nodes[p - 1] && ptr.next != null
      modifies Repr, element
      ensures Valid() && Repr == old(Repr) + {element}
      ensures p <= |old(Contents)| && Contents == Around(old(Contents), p, Keyed(element.item, element.key))
    {
      SpellsLinked(first, nodes, Contents);
      element.next := ptr.next;
      ptr.next := element;
      Enter(element, p);
    }

    method Append(item: T)
      requires Valid()
      modifies Repr
      ensures Valid() && fresh(Repr - old(Repr))
      ensures Contents == old(Contents) + [Keyed(item, 0)]
    {
      var element := new ListElement(item, 0);
      LinkLast(element);
    }

    method Prepend(item: T)
      requires Valid()
      modifies Repr
      ensures Valid() && fresh(Repr - old(Repr))
      ensures Contents == [Keyed(item, 0)] + old(Contents)
    {
      var element := new ListElement(item, 0);
      LinkFirst(element);
    }

    /** The node after which an item with this key goes: the last of the smaller or equal keys. */
    method FindPlace(sortKey: int) returns (ptr: ListElement<T>, ghost p: nat)
      requires Valid() && first != null && first.key <= sortKey
      ensures 0 < p <= |nodes| && ptr == nodes[p - 1] && p == Position(Contents, sortKey)
    {
      SpellsLinked(first, nodes, Contents);
      ptr := first;
      p := 1;
      while ptr.next != null && ptr.next.key <= sortKey
        invariant 0 < p <= |nodes| && ptr == nodes[p - 1]
        invariant forall i :: 0 <= i < p ==> nodes[i].key <= sortKey
        decreases |nodes| - p
      {
        ptr := ptr.next;
        p := p + 1;
      }
      PositionUnique(Contents, sortKey, p);
    }

    method SortedInsert(item: T, sortKey: int)
      requires Valid()
      modifies Repr
      ensures Valid() && fresh(Repr - old(Repr))
      ensures Contents == Inserted(old(Contents), Keyed(item, sortKey))
    {
      var element := new ListElement(item, sortKey);
      SpellsLinked(first, nodes, Contents);
      if first == null || sortKey < first.key {
        LinkFirst(element);
      } else {
        var ptr, p := FindPlace(sortKey);
        if ptr.next != null {
          LinkAfter(ptr, element, p);
        } else {
          LinkLast(element);
        }
      }
    }

    method IsEmpty() returns (empty: bool)
      requires Valid()
      ensures empty <==> Contents == []
    {
      empty := first == null;
    }

    /** Takes the first item off the list, with its key. */
    method SortedRemove() returns (thing: Option<Keyed<T>>)
      requires Valid()
      modifies Repr
      ensures Valid() && Repr <= old(Repr)
      ensures thing == if old(Contents) == [] then None else Some(old(Contents)[0])
      ensures Contents == if old(Contents) == [] then [] else old(Contents)[1..]
    {
      var element := first;
      if element == null {
        return None;
      }
      thing := Some(Keyed(element.item, element.key));
      ghost var rest := nodes[1..];
      assert Spells(element.next, rest, Contents[1..]) && element !in rest;
      assert rest != [] ==> last == rest[|rest| - 1];
      if first == last {
        first := null;
        last := null;
      } else {
        first := element.next;
      }
      assert rest == [] ==> first == null;
      nodes, Contents, Repr := rest, Contents[1..], Repr - {element};
    }

    /** The same, for lists that do not use keys. */
    method Remove() returns (item: Option<T>)
      requires Valid()
      modifies Repr
      ensures Valid() && Repr <= old(Repr)
      ensures item == if old(Contents) == [] then None else Some(old(Contents)[0].item)
      ensures Contents == if old(Contents) == [] then [] else old(Contents)[1..]
    {
      var thing := SortedRemove();
      item := if thing.None? then None else Some(thing.value.item);
    }
  }
}
