/** Intrusive circular doubly linked lists. A list is a ring of nodes through its head; the operations relink nodes of
    one ring, or two, and nothing else in the heap. */
module DoublyLinkedList {
  import opened Common

  class Node {
    var Flink: Node?
    var Blink: Node?
  }

  // ----- one ring -----

  ghost predicate Link(a: Node, b: Node)
    reads a, b
  {
    a.Flink == b && b.Blink == a
  }

  ghost predicate Distinct(nodes: seq<Node>) {
    forall i, j | 0 <= i < j < |nodes| :: nodes[i] != nodes[j]
  }

  /** The nodes of `ring`, in this order, are linked in a circle in both directions. */
  ghost predicate Linked(ring: seq<Node>)
    reads ring
  {
    && ring != []
    && Distinct(ring)
    && (forall i | 0 <= i < |ring| - 1 :: Link(ring[i], ring[i + 1]))
    && Link(ring[|ring| - 1], ring[0])
  }

  /** Makes a node a ring of its own. */
  method LinkAlone(head: Node)
    modifies head
    ensures Linked([head])
  {
    head.Flink := head;
    head.Blink := head;
  }

  /** Takes node number `k`, not the first, out of a ring. */
  method Unlink(entry: Node, ghost ring: seq<Node>, ghost k: nat) returns (oneLeft: bool)
    requires Linked(ring) && 1 <= k < |ring| && ring[k] == entry
    modifies ring
    ensures Linked(ring[..k] + ring[k+1..])
    ensures oneLeft <==> |ring| == 2
  {
    assert Link(ring[k-1], ring[k]);
    assert k + 1 < |ring| ==> Link(ring[k], ring[k+1]);
    var next := entry.Flink;
    var previous := entry.Blink;
    previous.Flink := next;
    next.Blink := previous;
    oneLeft := next == previous;
    ghost var rest := ring[..k] + ring[k+1..];
    forall i | 0 <= i < |rest| - 1 ensures Link(rest[i], rest[i+1]) {
      if i < k - 1 { assert old(Link(ring[i], ring[i+1])); }
      if i > k - 1 { assert old(Link(ring[i+1], ring[i+2])); }
    }
  }

  /** Takes the node behind the head out of a ring and returns it. */
  method UnlinkFirst(head: Node, ghost ring: seq<Node>) returns (entry: Node)
    requires Linked(ring) && ring[0] == head
    modifies ring
    ensures Linked(if |ring| == 1 then ring else [head] + ring[2..])
    ensures entry == if |ring| == 1 then head else ring[1]
  {
    assert |ring| > 1 ==> Link(ring[0], ring[1]);
    assert |ring| > 2 ==> Link(ring[1], ring[2]);
    entry := head.Flink;
    var next := entry.Flink;
    head.Flink := next;
    next.Blink := head;
    if |ring| > 1 {
      ghost var rest := [head] + ring[2..];
      forall i | 0 <= i < |rest| - 1 ensures Link(rest[i], rest[i+1]) {
        if i > 0 { assert old(Link(ring[i+1], ring[i+2])); }
      }
    }
  }

  /** Puts a node behind the last one of a ring. */
  method LinkLast(head: Node, entry: Node, ghost ring: seq<Node>)
    requires Linked(ring) && ring[0] == head && entry !in ring
    modifies ring, entry
    ensures Linked(ring + [entry])
  {
    var last := head.Blink;
    entry.Flink := head;
    entry.Blink := last;
    last.Flink := entry;
    head.Blink := entry;
    ghost var more := ring + [entry];
    forall i | 0 <= i < |more| - 1 ensures Link(more[i], more[i+1]) {
      if i < |ring| - 1 { assert old(Link(ring[i], ring[i+1])); }
    }
  }

  /** Puts a node behind the head of a ring. */
  method LinkFirst(head: Node, entry: Node, ghost ring: seq<Node>)
    requires Linked(ring) && ring[0] == head && entry !in ring
    modifies ring, entry
    ensures Linked([head, entry] + ring[1..])
  {
    assert |ring| > 1 ==> Link(ring[0], ring[1]);
    entry.Blink := head;
    entry.Flink := head.Flink;
    head.Flink.Blink := entry;
    head.Flink := entry;
    ghost var more := [head, entry] + ring[1..];
    forall i | 0 <= i < |more| - 1 ensures Link(more[i], more[i+1]) {
      if i > 1 { assert old(Link(ring[i-1], ring[i])); }
    }
  }

  /** Joins two rings into one. */
  method LinkRings(head: Node, toAppend: Node, ghost ring: seq<Node>, ghost other: seq<Node>)
    requires Linked(ring) && ring[0] == head && Linked(other) && other[0] == toAppend && Distinct(ring + other)
    modifies ring, other
    ensures Linked(ring + other)
  {
    ghost var all := ring + other;
    assert all[0] == head && all[|ring|] == toAppend;
    assert all[|ring| - 1] == ring[|ring| - 1] && all[|all| - 1] == other[|other| - 1];
    var end := head.Blink;
    head.Blink.Flink := toAppend;
    head.Blink := toAppend.Blink;
    toAppend.Blink.Flink := head;
    toAppend.Blink := end;
    forall i | 0 <= i < |all| - 1 ensures Link(all[i], all[i+1]) {
      if i < |ring| - 1 { assert old(Link(ring[i], ring[i+1])); }
      if i > |ring| - 1 { assert old(Link(other[i-|ring|], other[i-|ring|+1])); }
    }
  }

  // ----- families of rings -----

  /** The ring of a list: its head and then its entries. */
  ghost function Ring(lists: map<Node, seq<Node>>, head: Node): seq<Node> {
    if head in lists then [head] + lists[head] else []
  }

  ghost predicate Apart(a: seq<Node>, b: seq<Node>) {
    forall x <- a :: x !in b
  }

  ghost function Nodes(lists: map<Node, seq<Node>>): set<Node> {
    set head, i | head in lists && 0 <= i < |Ring(lists, head)| :: Ring(lists, head)[i]
  }

  /** `lists` maps the head of each list to its entries; all rings are well formed, and no two share a node. */
  ghost predicate Family(lists: map<Node, seq<Node>>)
    reads Nodes(lists)
  {
    && (forall head <- lists :: InFamily(lists, head) && Linked(Ring(lists, head)))
    && (forall a <- lists, b <- lists | a != b :: Apart(Ring(lists, a), Ring(lists, b)))
  }

  /** The nodes of a ring are nodes of the family. */
  ghost predicate InFamily(lists: map<Node, seq<Node>>, head: Node) {
    forall n <- Ring(lists, head) :: n in Nodes(lists)
  }

  /** No list of the family has the node. */
  ghost predicate Elsewhere(lists: map<Node, seq<Node>>, node: Node) {
    forall head <- lists :: node !in Ring(lists, head)
  }

  twostate lemma LinkedStill(ring: seq<Node>)
    requires old(Linked(ring)) && forall i | 0 <= i < |ring| :: unchanged(ring[i])
    ensures Linked(ring)
  {
    forall i | 0 <= i < |ring| - 1 ensures Link(ring[i], ring[i + 1]) {
      assert old(Link(ring[i], ring[i + 1]));
    }
  }

  /** `touched` has no node of the other lists. */
  ghost predicate OthersApart(lists: map<Node, seq<Node>>, head: Node, gone: set<Node>, touched: seq<Node>) {
    forall h <- lists | h != head && h !in gone :: Apart(Ring(lists, h), touched)
  }

  /** An operation that leaves the list of `head` with `entries`, takes away the lists in `gone`, and writes no other
      nodes than those in `touched`. */
  datatype Change = Change(lists: map<Node, seq<Node>>, gone: set<Node>, touched: seq<Node>,
                           head: Node, entries: seq<Node>)

  /** If the ring of `head` is well formed again, consists of touched nodes, and only nodes that are not in the other
      rings were touched, then the whole family is well formed. */
  twostate lemma FamilyAfter(change: Change)
    requires var Change(lists, gone, touched, head, entries) := change;
             && old(Family(lists)) && head !in gone && OthersApart(lists, head, gone, touched)
             && (forall n <- Nodes(lists) :: n in touched || unchanged(n))
             && Linked([head] + entries) && forall n <- [head] + entries :: n in touched
    ensures Family((change.lists - change.gone)[change.head := change.entries])
    ensures change.lists - {} == change.lists
  {
    var Change(lists, gone, touched, head, entries) := change;
    var lists' := (lists - gone)[head := entries];
    forall h <- lists' ensures InFamily(lists', h) {
      forall n <- Ring(lists', h) ensures n in Nodes(lists') {
        var i :| 0 <= i < |Ring(lists', h)| && Ring(lists', h)[i] == n;
      }
    }
    forall h <- lists' | h != head
      ensures Linked(Ring(lists', h))
      ensures Apart(Ring(lists', h), Ring(lists', head)) && Apart(Ring(lists', head), Ring(lists', h))
    {
      var ring := Ring(lists, h);
      assert Apart(ring, touched) && InFamily(lists, h);
      forall i | 0 <= i < |ring| ensures unchanged(ring[i]) { assert ring[i] in ring; }
      LinkedStill(ring);
    }
    forall x <- lists', y <- lists' | x != y && x != head && y != head ensures Apart(Ring(lists', x), Ring(lists', y)) {
      assert Apart(Ring(lists, x), Ring(lists, y));
    }
  }

  lemma RingApart(lists: map<Node, seq<Node>>, head: Node)
    requires Family(lists) && head in lists
    ensures Linked(Ring(lists, head)) && Ring(lists, head)[0] == head
    ensures OthersApart(lists, head, {}, Ring(lists, head))
  {}

  lemma StrangerApart(lists: map<Node, seq<Node>>, node: Node)
    requires Elsewhere(lists, node)
    ensures OthersApart(lists, node, {}, [node])
  {}

  lemma RingAndStrangerApart(lists: map<Node, seq<Node>>, head: Node, entry: Node)
    requires Family(lists) && head in lists && Elsewhere(lists, entry)
    ensures Linked(Ring(lists, head)) && Ring(lists, head)[0] == head && entry !in Ring(lists, head)
    ensures OthersApart(lists, head, {}, Ring(lists, head) + [entry])
  {
    forall h <- lists | h != head ensures Apart(Ring(lists, h), Ring(lists, head) + [entry]) {
      assert Apart(Ring(lists, h), Ring(lists, head));
    }
  }

  lemma TwoRingsApart(lists: map<Node, seq<Node>>, head: Node, gone: Node)
    requires Family(lists) && head in lists && gone in lists && head != gone
    ensures Linked(Ring(lists, head)) && Ring(lists, head)[0] == head
    ensures Linked(Ring(lists, gone)) && Ring(lists, gone)[0] == gone
    ensures Distinct(Ring(lists, head) + Ring(lists, gone))
    ensures OthersApart(lists, head, {gone}, Ring(lists, head) + Ring(lists, gone))
  {
    var a, b := Ring(lists, head), Ring(lists, gone);
    forall h <- lists | h != head && h !in {gone} ensures Apart(Ring(lists, h), a + b) {
      assert Apart(Ring(lists, h), a) && Apart(Ring(lists, h), b);
    }
    forall i, j | 0 <= i < j < |a + b| ensures (a + b)[i] != (a + b)[j] {
      if i < |a| <= j { assert Apart(b, a) && (a + b)[j] in b; }
    }
  }

  lemma RingWithout(head: Node, entries: seq<Node>, k: nat)
    requires k < |entries|
    ensures var ring := [head] + entries;
            [head] + (entries[..k] + entries[k+1..]) == ring[..k+1] + ring[k+2..]
  {
    var ring := [head] + entries;
    assert ring[..k+1] == [head] + entries[..k];
    assert ring[k+2..] == entries[k+1..];
    Associative([head], entries[..k], entries[k+1..]);
  }

  /** What this means for walking along a list: forwards from the head one meets the entries in order, and backwards in
      reverse. */
  lemma WalksAlong(lists: map<Node, seq<Node>>, head: Node, k: nat)
    requires Family(lists) && head in lists && k < |lists[head]|
    ensures var entries := lists[head];
            && head.Flink == entries[0] && entries[0].Blink == head
            && head.Blink == entries[|entries|-1] && entries[|entries|-1].Flink == head
            && (k + 1 < |entries| ==> entries[k].Flink == entries[k+1] && entries[k+1].Blink == entries[k])
  {
    var ring := Ring(lists, head);
    assert Linked(ring) by { assert InFamily(lists, head); }
    assert Link(ring[0], ring[1]) && Link(ring[|ring|-1], ring[0]);
    if k + 1 < |lists[head]| { assert Link(ring[k+1], ring[k+2]); }
  }

  lemma EmptyIsAlone(lists: map<Node, seq<Node>>, head: Node)
    requires Family(lists) && head in lists && lists[head] == []
    ensures head.Flink == head && head.Blink == head
  {
    assert Linked(Ring(lists, head)) by { assert InFamily(lists, head); }
  }

  // ----- the operations, on one list of a family -----

  method InitializeListHead(head: Node, ghost lists: map<Node, seq<Node>>)
    requires Family(lists) && Elsewhere(lists, head)
    modifies head
    ensures Family(lists[head := []])
  {
    hide Family, Linked, Distinct, Link, Apart, OthersApart, Elsewhere;
    StrangerApart(lists, head);
    LinkAlone(head);
    assert [head] + [] == [head];
    FamilyAfter(Change(lists, {}, [head], head, []));
  }

  method IsListEmpty(head: Node, ghost lists: map<Node, seq<Node>>) returns (empty: bool)
    requires Family(lists) && head in lists
    ensures empty <==> lists[head] == []
  {
    ghost var ring := Ring(lists, head);
    assert Linked(ring) && ring[0] == head;
    assert |ring| > 1 ==> Link(ring[0], ring[1]);
    empty := head.Flink == head;
  }

  /** `DList_RemoveEntryList` on entry number `k` of a list; the answer is whether that leaves the list empty. */
  method RemoveEntryList(entry: Node, ghost lists: map<Node, seq<Node>>, ghost head: Node, ghost k: nat)
    returns (nowEmpty: bool)
    requires Family(lists) && head in lists && k < |lists[head]| && entry == lists[head][k]
    modifies Ring(lists, head)
    ensures Family(lists[head := lists[head][..k] + lists[head][k+1..]])
    ensures nowEmpty <==> |lists[head]| == 1
  {
    hide Family, Linked, Distinct, Link, Apart, OthersApart;
    ghost var ring := Ring(lists, head);
    RingApart(lists, head);
    ghost var change := Change(lists, {}, ring, head, lists[head][..k] + lists[head][k+1..]);
    RingWithout(head, lists[head], k);
    nowEmpty := Unlink(entry, ring, k + 1);
    FamilyAfter(change);
  }

  /** `DList_RemoveHeadList`: an empty list stays as it is and its head is returned. */
  method RemoveHeadList(head: Node, ghost lists: map<Node, seq<Node>>) returns (entry: Node)
    requires Family(lists) && head in lists
    modifies Ring(lists, head)
    ensures lists[head] == [] ==> entry == head && Family(lists)
    ensures lists[head] != [] ==> entry == lists[head][0] && Family(lists[head := lists[head][1..]])
  {
    hide Family, Linked, Distinct, Link, Apart, OthersApart;
    ghost var ring := Ring(lists, head);
    RingApart(lists, head);
    ghost var rest := if |ring| == 1 then [] else lists[head][1..];
    assert [head] + rest == if |ring| == 1 then ring else [head] + ring[2..];
    ghost var change := Change(lists, {}, ring, head, rest);
    entry := UnlinkFirst(head, ring);
    FamilyAfter(change);
    assert |ring| == 1 ==> lists[head := rest] == lists;
  }

  method InsertTailList(head: Node, entry: Node, ghost lists: map<Node, seq<Node>>)
    requires Family(lists) && head in lists && Elsewhere(lists, entry)
    modifies Ring(lists, head), entry
    ensures Family(lists[head := lists[head] + [entry]])
  {
    hide Family, Linked, Distinct, Link, Apart, OthersApart, Elsewhere;
    ghost var ring := Ring(lists, head);
    RingAndStrangerApart(lists, head, entry);
    assert [head] + (lists[head] + [entry]) == ring + [entry];
    ghost var change := Change(lists, {}, ring + [entry], head, lists[head] + [entry]);
    LinkLast(head, entry, ring);
    FamilyAfter(change);
  }

  method InsertHeadList(head: Node, entry: Node, ghost lists: map<Node, seq<Node>>)
    requires Family(lists) && head in lists && Elsewhere(lists, entry)
    modifies Ring(lists, head), entry
    ensures Family(lists[head := [entry] + lists[head]])
  {
    hide Family, Linked, Distinct, Link, Apart, OthersApart, Elsewhere;
    ghost var ring := Ring(lists, head);
    RingAndStrangerApart(lists, head, entry);
    assert [head] + ([entry] + lists[head]) == [head, entry] + ring[1..];
    ghost var change := Change(lists, {}, ring + [entry], head, [entry] + lists[head]);
    LinkFirst(head, entry, ring);
    FamilyAfter(change);
  }

  /** The family after appending one of its lists, head and all, to another. */
  ghost function Appended(lists: map<Node, seq<Node>>, head: Node, toAppend: Node): map<Node, seq<Node>>
    requires head in lists && toAppend in lists
  {
    var entries := lists[head] + [toAppend] + lists[toAppend];
    (lists - {toAppend})[head := entries]
  }

  /** `DList_AppendTailList`: the head of the appended list becomes an ordinary entry. */
  method AppendTailList(head: Node, toAppend: Node, ghost lists: map<Node, seq<Node>>)
    requires Family(lists) && head in lists && toAppend in lists && head != toAppend
    modifies Ring(lists, head), Ring(lists, toAppend)
    ensures Family(Appended(lists, head, toAppend))
  {
    hide Family, Linked, Distinct, Link, Apart, OthersApart;
    ghost var ring, other := Ring(lists, head), Ring(lists, toAppend);
    TwoRingsApart(lists, head, toAppend);
    assert [head] + (lists[head] + [toAppend] + lists[toAppend]) == ring + other;
    ghost var change :=
      Change(lists, {toAppend}, ring + other, head, lists[head] + [toAppend] + lists[toAppend]);
    LinkRings(head, toAppend, ring, other);
    FamilyAfter(change);
  }
}
