/** The linked dictionary of list.c: nodes on the heap, chained through `next`
    from `head` to `tail`. */
module DictionaryLists {
  import opened CStrings
  import opened Wrappers

  datatype Entry = Entry(key: string, value: string)

  /** The value of the first entry with this key. */
  function Lookup(es: seq<Entry>, key: string): (r: Option<string>)
    ensures r.None? <==> forall i :: 0 <= i < |es| ==> es[i].key != key
    ensures r.Some? ==> exists i :: 0 <= i < |es| && es[i] == Entry(key, r.value)
                                    && forall j :: 0 <= j < i ==> es[j].key != key
  {
    if es == [] then None
    else if es[0].key == key then
      assert es[0] == Entry(key, es[0].value);
      Some(es[0].value)
    else
      var r := Lookup(es[1..], key);
      assert forall i :: 0 < i < |es| ==> es[i] == es[1..][i - 1];
      assert r.Some? ==> exists i :: 0 <= i < |es| && es[i] == Entry(key, r.value)
                                    && forall j :: 0 <= j < i ==> es[j].key != key by {
        if r.Some? {
          var i :| 0 <= i < |es[1..]| && es[1..][i] == Entry(key, r.value)
                   && forall j :: 0 <= j < i ==> es[1..][j].key != key;
          assert es[i + 1] == Entry(key, r.value);
          forall j | 0 <= j < i + 1 ensures es[j].key != key {
            if j > 0 { assert es[j] == es[1..][j - 1]; }
          }
        }
      }
      r
  }

  lemma {:induction false} LookupAppend(a: seq<Entry>, b: seq<Entry>, key: string)
    ensures Lookup(a + b, key) == if Lookup(a, key).Some? then Lookup(a, key) else Lookup(b, key)
  {
    if a == [] {
      assert a + b == b;
    } else {
      assert (a + b)[1..] == a[1..] + b;
      LookupAppend(a[1..], b, key);
    }
  }

  class Node {
    var key: string
    var value: string
    var next: Node?
    /** False once the node has been handed to free(). */
    ghost var live: bool

    constructor (key: string, value: string)
      ensures this.key == key && this.value == value && next == null && live
    {
      this.key, this.value, next, live := key, value, null, true;
    }

    /** free(): allowed once; no field of the node is known to keep its value. */
    method Free()
      requires live
      modifies this
      ensures !live
    {
      live := false;
    }
  }

  class DicList {
    var head: Node?
    var tail: Node?
    /** The entries, in order. */
    ghost var Contents: seq<Entry>
    /** The chain from head to tail. */
    ghost var nodes: seq<Node>
    ghost var Repr: set<object>

    /** The chain is what following `next` from `head` visits: it has no repetition,
        so it is acyclic, and it ends at `tail`, after which comes NULL. */
    ghost predicate Valid()
      reads this, Repr
      ensures Valid() ==> this in Repr
    {
      && this in Repr
      && Distinct(nodes)
      && (nodes == [] ==> head == null && tail == null)
      && (nodes != [] ==> head == nodes[0] && tail == nodes[|nodes| - 1])
      && |Contents| == |nodes|
      && (forall i {:trigger nodes[i]} :: 0 <= i < |nodes| ==>
            && nodes[i] in Repr
            && nodes[i].live
            && nodes[i].next == At(nodes, i + 1)
            && Contents[i] == Entry(nodes[i].key, nodes[i].value))
    }

    constructor ()
      ensures Valid() && fresh(Repr) && Contents == []
    {
      head, tail, nodes, Contents, Repr := null, null, [], [], {this};
    }

    method AddData(key: string, value: string)
      requires Valid()
      modifies Repr
      ensures Valid() && fresh(Repr - old(Repr))
      ensures Contents == old(Contents) + [Entry(key, value)]
    {
      var p := new Node(key, value);
      if head == null && tail == null {
        head, tail := p, p;
      } else {
        tail.next := p;
        tail := p;
      }
      nodes, Contents, Repr := nodes + [p], Contents + [Entry(key, value)], Repr + {p};
    }

    method FindValue(key: CString) returns (r: Option<string>)
      requires Valid()
      ensures r == Lookup(Contents, key)
    {
      ghost var i := 0;
      var it := head;
      while it != null
        invariant 0 <= i <= |nodes| && it == At(nodes, i)
        invariant Lookup(Contents, key) == Lookup(Contents[i..], key)
        decreases |nodes| - i
      {
        assert Contents[i..][1..] == Contents[i + 1..];
        if it.key == key { return Some(it.value); }
        it := it.next;
        i := i + 1;
      }
      return None;
    }

    /** Frees every node of the chain, each once, reading `next` only before the free. */
    method ClearList()
      requires Valid()
      modifies Repr
      ensures nodes == old(nodes)
      ensures forall n :: n in nodes ==> !n.live
    {
      ghost var i := 0;
      var it := head;
      while it != null
        invariant nodes == old(nodes) && Distinct(nodes)
        invariant Repr == old(Repr) && forall k :: 0 <= k < |nodes| ==> nodes[k] in Repr
        invariant 0 <= i <= |nodes| && it == At(nodes, i)
        invariant forall k :: 0 <= k < i ==> !nodes[k].live
        invariant forall k :: i <= k < |nodes| ==> nodes[k].live
        invariant forall k :: i <= k < |nodes| ==> nodes[k].next == At(nodes, k + 1)
        decreases |nodes| - i
      {
        var tmp := it;
        it := it.next;
        tmp.Free();
        i := i + 1;
      }
    }
  }

  ghost predicate Distinct(nodes: seq<Node>) {
    forall i, j :: 0 <= i < j < |nodes| ==> nodes[i] != nodes[j]
  }

  ghost function At(nodes: seq<Node>, i: nat): Node? {
    if i < |nodes| then nodes[i] else null
  }

  /** What walking `next` from `n` visits, for at most `fuel` steps. */
  ghost function Walk(n: Node?, fuel: nat): seq<Node>
    reads *
  {
    if n == null || fuel == 0 then [] else [n] + Walk(n.next, fuel - 1)
  }

  /** The nodes reachable from `head` are exactly the chain: every walk that is
      long enough stops, with the same nodes in the same order. */
  lemma {:induction false} ReachableIsChain(list: DicList, i: nat, fuel: nat)
    requires list.Valid() && i <= |list.nodes| <= i + fuel
    ensures Walk(At(list.nodes, i), fuel) == list.nodes[i..]
    decreases fuel
  {
    if i < |list.nodes| {
      ReachableIsChain(list, i + 1, fuel - 1);
      assert list.nodes[i..] == [list.nodes[i]] + list.nodes[i + 1..];
    }
  }
}
