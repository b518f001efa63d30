/** code/threads/list.cc: a singly linked list of items with keys, which may be kept sorted. */
module Lists {
  import opened Outcomes

  datatype Item<T> = Item(item: T, key: int)

  datatype Option<+T> = None | Some(value: T)

  predicate Sorted<T>(s: seq<Item<T>>)
  {
    forall i, j :: 0 <= i < j < |s| ==> s[i].key <= s[j].key
  }

  // The first place where the key is greater.
  function Place<T>(s: seq<Item<T>>, key: int): (p: nat)
    ensures p <= |s| && (forall i :: 0 <= i < p ==> s[i].key <= key) && (p < |s| ==> key < s[p].key)
  {
    if s == [] || key < s[0].key then 0 else 1 + Place(s[1..], key)
  }

  function Inserted<T>(s: seq<Item<T>>, e: Item<T>): (r: seq<Item<T>>)
    ensures |r| == |s| + 1
  {
    s[..Place(s, e.key)] + [e] + s[Place(s, e.key)..]
  }

  // The list stays sorted, nothing but e is added, and e comes after all that have its key.
  lemma InsertedSorted<T>(s: seq<Item<T>>, e: Item<T>)
    requires Sorted(s)
    ensures Sorted(Inserted(s, e)) && multiset(Inserted(s, e)) == multiset(s) + multiset{e}
    ensures forall i :: 0 <= i < |s| && s[i].key == e.key ==> i < Place(s, e.key)
  {
    hide Place;
    hide Sorted;
    var p := Place(s, e.key);
    SortedSplit(s, e, p);
    BagInserted(s, e, p);
    LastOfKey(s, e, p);
  }

  lemma LastOfKey<T>(s: seq<Item<T>>, e: Item<T>, p: nat)
    requires Sorted(s) && p <= |s| && (p < |s| ==> e.key < s[p].key)
    ensures forall i :: 0 <= i < |s| && s[i].key == e.key ==> i < p
  {
    assert forall i :: p <= i < |s| ==> s[p].key <= s[i].key;
  }

  lemma BagInserted<T>(s: seq<T>, e: T, p: nat)
    requires p <= |s|
    ensures multiset(s[..p] + [e] + s[p..]) == multiset(s) + multiset{e}
  {
    assert s == s[..p] + s[p..];
  }

  lemma SortedSplit<T>(s: seq<Item<T>>, e: Item<T>, p: nat)
    requires Sorted(s) && p <= |s| && (forall i :: 0 <= i < p ==> s[i].key <= e.key) && (p < |s| ==> e.key < s[p].key)
    ensures Sorted(s[..p] + [e] + s[p..])
  {
    var r := s[..p] + [e] + s[p..];
    forall i, j | 0 <= i < j < |r| ensures r[i].key <= r[j].key {
      assert r[i] == if i < p then s[i] else if i == p then e else s[i - 1];
      assert r[j] == if j < p then s[j] else if j == p then e else s[j - 1];
      assert p < j ==> s[p].key <= s[j - 1].key;
    }
  }

  lemma PlaceIs<T>(s: seq<Item<T>>, key: int, p: nat)
    requires p <= |s| && (forall i :: 0 <= i < p ==> s[i].key <= key) && (p < |s| ==> key < s[p].key)
    ensures Place(s, key) == p
  {
  }

  class ListElement<T> {
    var next: ListElement?<T>
    const key: int
    const item: T

    constructor (item: T, key: int)
      ensures this.item == item && this.key == key && next == null
    {
      this.item, this.key, next := item, key, null;
    }
  }

  ghost function Values<T>(ns: seq<ListElement<T>>): (s: seq<Item<T>>)
    ensures |s| == |ns| && forall i :: 0 <= i < |ns| ==> s[i] == Item(ns[i].item, ns[i].key)
  {
    seq(|ns|, i requires 0 <= i < |ns| => Item(ns[i].item, ns[i].key))
  }

  function With<T>(ns: seq<T>, x: T, p: nat): seq<T>
    requires p <= |ns|
  {
    ns[..p] + [x] + ns[p..]
  }

  lemma WithIs<T>(ns: seq<T>, x: T, p: nat)
    requires p <= |ns| && x !in ns && forall i, j :: 0 <= i < j < |ns| ==> ns[i] != ns[j]
    ensures var r := With(ns, x, p);
            && |r| == |ns| + 1 && (forall i :: 0 <= i < |r| ==> r[i] == if i < p then ns[i] else if i == p then x else ns[i - 1])
            && forall i, j :: 0 <= i < j < |r| ==> r[i] != r[j]
  {
    var r := With(ns, x, p);
    assert forall i :: 0 <= i < |r| ==> r[i] == if i < p then ns[i] else if i == p then x else ns[i - 1];
  }

  lemma ValuesInserted<T>(ns: seq<ListElement<T>>, x: ListElement<T>, p: nat)
    requires p <= |ns| && (forall i :: 0 <= i < p ==> ns[i].key <= x.key) && (p < |ns| ==> x.key < ns[p].key)
    ensures Values(With(ns, x, p)) == Inserted(Values(ns), Item(x.item, x.key))
  {
    PlaceIs(Values(ns), x.key, p);
    hide Place;
  }

  class List<T> {
    var first: ListElement?<T>
    var last: ListElement?<T>
    var numInList: nat
    ghost var nodes: seq<ListElement<T>>        // the elements, in order
    ghost var repr: set<ListElement<T>>         // all elements there ever were

    ghost predicate Valid()
      reads this, repr
    {
      forall x {:trigger Inside(x)} :: Inside(x) ==>
        && numInList == |nodes|
        && (forall i :: 0 <= i < |nodes| ==> nodes[i] in repr)
        && (forall i, j :: 0 <= i < j < |nodes| ==> nodes[i] != nodes[j])
        && Linked(nodes)
        && first == (if nodes == [] then null else nodes[0])
        && last == (if nodes == [] then null else nodes[|nodes| - 1])
    }

    static ghost predicate Linked(ns: seq<ListElement<T>>)
      reads ns
    {
      && (forall i :: 0 <= i < |ns| - 1 ==> ns[i].next == ns[i + 1])
      && (ns != [] ==> ns[|ns| - 1].next == null)
    }

    ghost function Contents(): seq<Item<T>>
      reads this
    {
      Values(nodes)
    }

    constructor ()
      ensures Valid() && repr == {} && Contents() == []
    {
      first, last, numInList, nodes, repr := null, null, 0, [], {};
    }

    method IsEmpty() returns (empty: bool)
      requires Valid()
      ensures empty <==> Contents() == []
    {
      assert Inside(0);
      empty := first == null;
    }

    method Append(item: T)
      requires Valid()
      modifies this, repr
      ensures Valid() && fresh(repr - old(repr)) && Contents() == old(Contents()) + [Item(item, 0)]
    {
      assert Inside(0);
      var element := new ListElement(item, 0);
      if first == null {
        first, last := element, element;
      } else {
        last.next := element;
        last := element;
      }
      nodes, repr := nodes + [element], repr + {element};
      numInList := numInList + 1;
    }

    method SortedInsert(item: T, sortKey: int)
      requires Valid()
      modifies this, repr
      ensures Valid() && fresh(repr - old(repr))
      ensures Contents() == Inserted(old(Contents()), Item(item, sortKey))
    {
      hide Inserted;
      hide Values;
      assert Inside(0);
      var element := new ListElement(item, sortKey);
      ghost var ns, p := nodes, 0;
      if first == null || sortKey < first.key {
        LinkFirst(element);
      } else {
        var ptr;
        ptr, p := LastNotGreater(sortKey);
        LinkAfter(element, ptr, p);
      }
      ValuesInserted(ns, element, p);
    }

    method LinkFirst(element: ListElement<T>)
      requires Valid() && element !in repr && element.next == null
      modifies this, element
      ensures Valid() && nodes == With(old(nodes), element, 0) && repr == old(repr) + {element}
    {
      assert Inside(0);
      if first == null { last := element; } else { element.next := first; }
      first := element;
      nodes, repr := With(nodes, element, 0), repr + {element};
      numInList := numInList + 1;
      assert forall i :: 1 <= i < |nodes| ==> nodes[i] == old(nodes)[i - 1];
    }

    method LinkAfter(element: ListElement<T>, ptr: ListElement<T>, ghost p: nat)
      requires Valid() && element !in repr && 1 <= p <= |nodes| && ptr == nodes[p - 1]
      modifies this, element, ptr
      ensures Valid() && nodes == With(old(nodes), element, p) && repr == old(repr) + {element}
    {
      assert Inside(0);
      ghost var ns, all := nodes, With(nodes, element, p);
      WithIs(ns, element, p);
      hide With;
      assert ptr.next == if p < |ns| then ns[p] else null;
      element.next := ptr.next;
      ptr.next := element;
      if element.next == null { last := element; }
      nodes, repr := all, repr + {element};
      numInList := numInList + 1;
      forall i | 0 <= i < |all| - 1 ensures all[i].next == all[i + 1] {
        if i < p - 1 { assert ns[i].next == ns[i + 1]; } else if i > p { assert ns[i - 1].next == ns[i]; }
      }
    }

    // The element after which the key belongs: the next one is greater, or there is none.
    method LastNotGreater(sortKey: int) returns (ptr: ListElement<T>, ghost p: nat)
      requires Valid() && first != null && first.key <= sortKey
      ensures 1 <= p <= |nodes| && ptr == nodes[p - 1]
      ensures (forall i :: 0 <= i < p ==> nodes[i].key <= sortKey) && (p < |nodes| ==> sortKey < nodes[p].key)
    {
      assert Inside(0);
      ptr, p := first, 1;
      while ptr.next != null
        invariant 1 <= p <= |nodes| && ptr == nodes[p - 1]
        invariant forall i :: 0 <= i < p ==> nodes[i].key <= sortKey
        decreases |nodes| - p
      {
        if sortKey < ptr.next.key { return; }
        ptr, p := ptr.next, p + 1;
      }
    }

    // The first item with its key, or none when the list is empty.
    method SortedRemove() returns (r: Option<Item<T>>)
      requires Valid()
      modifies this
      ensures Valid() && repr == old(repr)
      ensures if old(Contents()) == [] then r == None && Contents() == []
              else r == Some(old(Contents())[0]) && Contents() == old(Contents())[1..]
    {
      assert Inside(0);
      var empty := IsEmpty();
      if empty { return None; }
      var element := first;
      r := Some(Item(element.item, element.key));
      if first == last {
        first, last := null, null;
      } else {
        first := element.next;
      }
      ghost var ns := nodes;
      nodes := nodes[1..];
      numInList := numInList - 1;
      forall i | 0 <= i < |nodes| - 1 ensures nodes[i].next == nodes[i + 1] { assert ns[i + 1].next == ns[i + 2]; }
    }
  }
}
