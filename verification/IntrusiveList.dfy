/** The intrusive list (`embedded-service/src/intrusive_list.rs`): nodes that live inside the listed
    objects, can only be pushed, and belong to one list at most. */
module IntrusiveList {

  // ---------------------------------------------------------------- pushes on plain sequences

  datatype Push<T> = Push(list: nat, item: T)

  ghost predicate InSome<T>(contents: seq<seq<T>>, x: T) {
    exists k :: 0 <= k < |contents| && x in contents[k]
  }

  /** What pushing `p.item` to list `p.list` does to the contents of all the lists. */
  ghost function Pushed<T>(contents: seq<seq<T>>, p: Push<T>): (r: seq<seq<T>>)
    ensures |r| == |contents|
  {
    if p.list >= |contents| || InSome(contents, p.item) then contents
    else contents[p.list := [p.item] + contents[p.list]]
  }

  ghost function AllPushed<T>(contents: seq<seq<T>>, ps: seq<Push<T>>): (r: seq<seq<T>>)
    ensures |r| == |contents|
  {
    if ps == [] then contents else Pushed(AllPushed(contents, ps[..|ps| - 1]), ps[|ps| - 1])
  }

  /** Nothing is listed twice, in one list or in two. */
  ghost predicate OnceOnly<T>(contents: seq<seq<T>>) {
    forall k, i, l, j |
      0 <= k < |contents| && 0 <= i < |contents[k]| && 0 <= l < |contents| && 0 <= j < |contents[l]| ::
      contents[k][i] == contents[l][j] ==> k == l && i == j
  }

  lemma {:induction false} PushedOnceOnly<T>(contents: seq<seq<T>>, p: Push<T>)
    requires OnceOnly(contents)
    ensures OnceOnly(Pushed(contents, p))
  {
    if p.list < |contents| && !InSome(contents, p.item) {
      var after := Pushed(contents, p);
      forall k, i, l, j |
        0 <= k < |after| && 0 <= i < |after[k]| && 0 <= l < |after| && 0 <= j < |after[l]|
        && after[k][i] == after[l][j]
        ensures k == l && i == j
      {
        var i' := if k == p.list then i - 1 else i;
        var j' := if l == p.list then j - 1 else j;
        assert i' >= 0 ==> contents[k][i'] == after[k][i] && contents[k][i'] in contents[k];
        assert j' >= 0 ==> contents[l][j'] == after[l][j] && contents[l][j'] in contents[l];
      }
    }
  }

  lemma {:induction false} PushedLists<T>(contents: seq<seq<T>>, p: Push<T>, x: T)
    ensures InSome(Pushed(contents, p), x) <==> InSome(contents, x) || (p.list < |contents| && x == p.item)
  {
    if p.list < |contents| && !InSome(contents, p.item) {
      var after := Pushed(contents, p);
      assert p.item in after[p.list];
      forall k | 0 <= k < |contents|
        ensures x in after[k] <==> x in contents[k] || (k == p.list && x == p.item)
      {
      }
    }
  }

  /** Over any sequence of pushes to any lists, nothing comes to be listed twice. */
  lemma {:induction false} AllPushedOnceOnly<T>(contents: seq<seq<T>>, ps: seq<Push<T>>)
    requires OnceOnly(contents)
    ensures OnceOnly(AllPushed(contents, ps))
  {
    if ps != [] {
      AllPushedOnceOnly(contents, ps[..|ps| - 1]);
      PushedOnceOnly(AllPushed(contents, ps[..|ps| - 1]), ps[|ps| - 1]);
    }
  }

  function Empties<T>(n: nat): (r: seq<seq<T>>)
    ensures |r| == n && forall k :: 0 <= k < n ==> r[k] == []
  {
    seq(n, _ => [])
  }

  ghost predicate PushedBefore<T>(ps: seq<Push<T>>, lists: nat, x: T) {
    exists i :: 0 <= i < |ps| && ps[i].item == x && ps[i].list < lists
  }

  /** The objects whose first push of all was to list `k`, in the order of those pushes. */
  ghost function FirstPushes<T>(ps: seq<Push<T>>, lists: nat, k: nat): seq<T> {
    if ps == [] then []
    else
      var front, p := ps[..|ps| - 1], ps[|ps| - 1];
      FirstPushes(front, lists, k) + if p.list == k && !PushedBefore(front, lists, p.item) then [p.item] else []
  }

  function Reverse<T>(s: seq<T>): seq<T> {
    if s == [] then [] else [s[|s| - 1]] + Reverse(s[..|s| - 1])
  }

  /** An object is listed once it has been pushed at all ... */
  lemma {:induction false} ListedOncePushed<T>(lists: nat, ps: seq<Push<T>>, x: T)
    ensures InSome(AllPushed(Empties<T>(lists), ps), x) <==> PushedBefore(ps, lists, x)
  {
    if ps != [] {
      var front, p := ps[..|ps| - 1], ps[|ps| - 1];
      ListedOncePushed(lists, front, x);
      PushedLists(AllPushed(Empties<T>(lists), front), p, x);
      assert PushedBefore(ps, lists, x) <==> PushedBefore(front, lists, x) || (p.item == x && p.list < lists);
    }
  }

  /** ... and a list holds, newest first, the objects that were first pushed to it. */
  lemma {:induction false} ListsInReverse<T>(lists: nat, ps: seq<Push<T>>, k: nat)
    requires k < lists
    ensures AllPushed(Empties<T>(lists), ps)[k] == Reverse(FirstPushes(ps, lists, k))
  {
    if ps != [] {
      var front, p := ps[..|ps| - 1], ps[|ps| - 1];
      ListsInReverse(lists, front, k);
      ListedOncePushed(lists, front, p.item);
      var s := FirstPushes(front, lists, k);
      if p.list == k && !PushedBefore(front, lists, p.item) {
        assert (s + [p.item])[..|s|] == s;
      } else {
        assert FirstPushes(ps, lists, k) == s;
      }
    }
  }

  // ---------------------------------------------------------------- nodes and lists

  class Node {
    /** The type of the object around the node. */
    const kind: nat
    var valid: bool
    var next: Node?

    constructor (kind: nat)
      ensures this.kind == kind && !valid && next == null
    {
      this.kind, valid, next := kind, false, null;
    }

    /** `data`: whether the node gives an object of this type. */
    predicate HasData(kind: nat)
      reads this
    {
      valid && this.kind == kind
    }
  }

  /** From `head` the links lead through these nodes and then end. */
  ghost predicate Linked(head: Node?, items: seq<Node>)
    reads items
  {
    if items == [] then head == null
    else head == items[0] && items[0].valid && Linked(items[0].next, items[1..])
  }

  lemma {:induction false} LinkedAt(head: Node?, items: seq<Node>, i: nat)
    requires Linked(head, items) && i < |items|
    ensures items[i].valid && Linked(items[i], items[i..]) && Linked(items[i].next, items[i + 1..])
  {
    if i > 0 {
      LinkedAt(items[0].next, items[1..], i - 1);
      assert items[1..][i - 1..] == items[i..] && items[1..][i..] == items[i + 1..];
    }
  }

  lemma {:induction false} LinkedLength(head: Node?, p: seq<Node>, q: seq<Node>)
    requires Linked(head, p) && Linked(head, q)
    ensures p == q
  {
    if p != [] && q != [] {
      LinkedLength(p[0].next, p[1..], q[1..]);
      assert p == [p[0]] + p[1..] && q == [q[0]] + q[1..];
    }
  }

  /** Links that end visit no node twice. */
  lemma {:induction false} LinkedIsAcyclic(head: Node?, items: seq<Node>, i: nat, j: nat)
    requires Linked(head, items) && i < j < |items|
    ensures items[i] != items[j]
  {
    LinkedAt(head, items, i);
    LinkedAt(head, items, j);
    if items[i] == items[j] {
      LinkedLength(items[i], items[i..], items[j..]);
      assert false;
    }
  }

  function OfKind(items: seq<Node>, kind: nat): seq<Node> {
    if items == [] then []
    else OfKind(items[..|items| - 1], kind) + if items[|items| - 1].kind == kind then [items[|items| - 1]] else []
  }

  class List {
    var head: Node?
    ghost var items: seq<Node>

    ghost predicate Valid()
      reads this, items
    {
      Linked(head, items)
    }

    constructor ()
      ensures Valid() && items == []
    {
      head, items := null, [];
    }

    method PushFront(node: Node)
      requires Valid() && node !in items && node.valid && node.next == null
      modifies this, node`next
      ensures Valid() && items == [node] + old(items)
    {
      if head != null {
        node.next := head;
      }
      head, items := node, [node] + items;
      assert items[1..] == old(items);
    }

    /** Refused, and without any effect, for a node that is in a list already. */
    method Push(node: Node) returns (ok: bool)
      requires Valid()
      modifies this, node`valid, node`next
      ensures Valid() && ok == !old(node.valid) && node.valid
      ensures ok ==> items == [node] + old(items)
      ensures !ok ==> unchanged(this) && unchanged(node)
    {
      if node.valid {
        return false;
      }
      if node in items {
        var i :| 0 <= i < |items| && items[i] == node;
        LinkedAt(head, items, i);
        assert false;
      }
      node.valid, node.next := true, null;
      PushFront(node);
      return true;
    }

    /** Iteration from the head: the nodes from the newest to the oldest, then the end. */
    method Iterate() returns (visited: seq<Node>)
      requires Valid()
      ensures visited == items
    {
      visited := [];
      var current := head;
      while current != null
        invariant |visited| <= |items| && visited == items[..|visited|]
        invariant Linked(current, items[|visited|..])
        decreases |items| - |visited|
      {
        assert items[|visited|..][1..] == items[|visited| + 1..];
        visited := visited + [current];
        current := current.next;
      }
    }

    /** `iter_only`: nodes of other types are skipped. */
    method IterateOnly(kind: nat) returns (visited: seq<Node>)
      requires Valid()
      ensures visited == OfKind(items, kind)
    {
      visited := [];
      var current := head;
      ghost var seen := 0;
      while current != null
        invariant seen <= |items| && visited == OfKind(items[..seen], kind)
        invariant Linked(current, items[seen..])
        decreases |items| - seen
      {
        assert items[seen..][1..] == items[seen + 1..];
        assert items[..seen + 1][..seen] == items[..seen];
        if current.HasData(kind) {
          visited := visited + [current];
        }
        current := current.next;
        seen := seen + 1;
      }
      assert items[..seen] == items;
    }
  }

  // ---------------------------------------------------------------- many lists

  ghost function Contents(lists: seq<List>): (r: seq<seq<Node>>)
    reads lists
    ensures |r| == |lists| && forall k :: 0 <= k < |lists| ==> r[k] == lists[k].items
  {
    if lists == [] then [] else Contents(lists[..|lists| - 1]) + [lists[|lists| - 1].items]
  }

  /** Distinct lists, properly linked among these nodes, and no node valid without being in a list. */
  ghost predicate Separate(lists: seq<List>, nodes: set<Node>)
    reads lists, nodes
  {
    && (forall k, l :: 0 <= k < l < |lists| ==> lists[k] != lists[l])
    && (forall k :: 0 <= k < |lists| ==> (forall n :: n in lists[k].items ==> n in nodes) && lists[k].Valid())
    && (forall n :: n in nodes && n.valid ==> InSome(Contents(lists), n))
  }

  lemma {:induction false} ValidIsListed(lists: seq<List>, nodes: set<Node>, node: Node)
    requires Separate(lists, nodes) && node in nodes
    ensures node.valid <==> InSome(Contents(lists), node)
    ensures !node.valid ==> forall k :: 0 <= k < |lists| ==> node !in lists[k].items
  {
    forall k | 0 <= k < |lists| && node in lists[k].items
      ensures node.valid
    {
      var i :| 0 <= i < |lists[k].items| && lists[k].items[i] == node;
      LinkedAt(lists[k].head, lists[k].items, i);
    }
  }

  method PushOne(lists: seq<List>, ghost nodes: set<Node>, p: Push<Node>) returns (ok: bool)
    requires Separate(lists, nodes) && p.list < |lists| && p.item in nodes
    modifies lists[p.list], p.item
    ensures Separate(lists, nodes)
    ensures Contents(lists) == Pushed(old(Contents(lists)), p)
    ensures ok <==> !InSome(old(Contents(lists)), p.item)
  {
    hide InSome;
    ghost var before := Contents(lists);
    ValidIsListed(lists, nodes, p.item);
    ok := lists[p.list].Push(p.item);
    assert Contents(lists) == Pushed(before, p);
    forall n | n in nodes && n.valid
      ensures InSome(Contents(lists), n)
    {
      PushedLists(before, p, n);
    }
  }

  /** Any sequence of pushes of any of the nodes to any of the lists: the lists stay apart and well
      linked, and hold what pushing on plain sequences gives. */
  method PushAll(lists: seq<List>, ghost nodes: set<Node>, ps: seq<Push<Node>>) returns (accepted: seq<bool>)
    requires Separate(lists, nodes)
    requires forall i :: 0 <= i < |ps| ==> ps[i].list < |lists| && ps[i].item in nodes
    modifies lists, nodes
    ensures Separate(lists, nodes)
    ensures Contents(lists) == AllPushed(old(Contents(lists)), ps)
    ensures |accepted| == |ps|
    ensures forall i :: 0 <= i < |ps| ==>
      (accepted[i] <==> !InSome(AllPushed(old(Contents(lists)), ps[..i]), ps[i].item))
  {
    hide Separate, Contents, Pushed, InSome;
    accepted := [];
    for i := 0 to |ps|
      invariant Separate(lists, nodes)
      invariant Contents(lists) == AllPushed(old(Contents(lists)), ps[..i])
      invariant |accepted| == i
      invariant forall j :: 0 <= j < i ==>
        (accepted[j] <==> !InSome(AllPushed(old(Contents(lists)), ps[..j]), ps[j].item))
    {
      assert ps[..i + 1][..i] == ps[..i];
      var ok := PushOne(lists, nodes, ps[i]);
      accepted := accepted + [ok];
    }
    assert ps[..|ps|] == ps;
  }

  lemma {:induction false} FreshIsSeparate(lists: seq<List>, nodes: set<Node>)
    requires forall k, l :: 0 <= k < l < |lists| ==> lists[k] != lists[l]
    requires forall k :: 0 <= k < |lists| ==> lists[k].items == [] && lists[k].Valid()
    requires forall n :: n in nodes ==> !n.valid
    ensures Separate(lists, nodes) && Contents(lists) == Empties<Node>(|lists|)
  {
  }

  /** From the beginning to the end: any pushes of new nodes to new lists, then an iteration over one of
      them. It ends and yields the nodes whose first push of all was to that list, newest first. */
  method PushThenIterate(lists: seq<List>, ghost nodes: set<Node>, ps: seq<Push<Node>>, k: nat)
    returns (visited: seq<Node>)
    requires forall i, j :: 0 <= i < j < |lists| ==> lists[i] != lists[j]
    requires forall i :: 0 <= i < |lists| ==> lists[i].items == [] && lists[i].Valid()
    requires forall n :: n in nodes ==> !n.valid
    requires forall i :: 0 <= i < |ps| ==> ps[i].list < |lists| && ps[i].item in nodes
    requires k < |lists|
    modifies lists, nodes
    ensures visited == Reverse(FirstPushes(ps, |lists|, k))
  {
    hide InSome, OnceOnly;
    FreshIsSeparate(lists, nodes);
    var _ := PushAll(lists, nodes, ps);
    ListsInReverse<Node>(|lists|, ps, k);
    visited := lists[k].Iterate();
  }
}
