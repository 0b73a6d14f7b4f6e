/** cache.c: a doubly linked list with a sentinel at each end, updated in place. */
module ObjectCache {
  import opened CacheSpec

  /** list_node. The sentinels have no key; theirs is never looked at. */
  class Node {
    var size: nat
    var key: string
    var value: seq<bv8>
    var next: Node?
    var prev: Node?

    /** create_node, create_empty_node. */
    constructor (key: string, value: seq<bv8>)
      ensures this.key == key && this.value == value && size == |value| && next == prev == null
    {
      this.key, this.value, this.size := key, value, |value|;
      next, prev := null, null;
    }
  }

  /** The nodes are linked both ways in this order, and none occurs twice. */
  ghost predicate Linked(all: seq<Node>)
    reads all
  {
    && (forall i, j :: 0 <= i < j < |all| ==> all[i] != all[j])
    && (forall i :: 0 <= i < |all| - 1 ==> all[i].next == all[i + 1])
    && (forall i :: 0 < i < |all| ==> all[i].prev == all[i - 1])
  }

  ghost function Entries(nodes: seq<Node>): (es: seq<Entry>)
    reads nodes
    ensures |es| == |nodes| && forall i :: 0 <= i < |nodes| ==> es[i] == Entry(nodes[i].key, nodes[i].value)
  {
    seq(|nodes|, i requires 0 <= i < |nodes| reads nodes => Entry(nodes[i].key, nodes[i].value))
  }

  ghost predicate Sized(nodes: seq<Node>)
    reads nodes
  {
    forall i :: 0 <= i < |nodes| ==> nodes[i].size == |nodes[i].value|
  }

  class ObjectCache {
    var listSize: nat
    const head: Node
    const tail: Node
    /** The nodes between the sentinels. */
    ghost var nodes: seq<Node>

    ghost function All(): (a: seq<Node>)
      reads this`nodes
      ensures |a| == |nodes| + 2
    {
      [head] + nodes + [tail]
    }

    ghost function Contents(): (es: seq<Entry>)
      reads this`nodes, nodes
      ensures |es| == |nodes|
    {
      Entries(nodes)
    }

    /** The links are in order, and the size counted is that of the objects. */
    ghost predicate Shape()
      reads this`nodes, this`listSize, head, tail, nodes
    {
      Linked(All()) && head.prev == null && tail.next == null && Sized(nodes) && listSize == Total(Contents())
    }

    ghost predicate Valid()
      reads this`nodes, this`listSize, head, tail, nodes
    {
      Shape() && DistinctKeys(Contents()) && listSize <= MAX_CACHE_SIZE
    }

    lemma EntryOf(i: nat)
      requires i < |nodes| && Sized(nodes)
      ensures Contents()[i] == Entry(nodes[i].key, nodes[i].value) && nodes[i].size == |Contents()[i].value|
    {
    }

    lemma ShapeParts()
      requires Shape()
      ensures Linked(All()) && head.prev == null && tail.next == null && Sized(nodes) && listSize == Total(Contents())
    {
    }

    lemma ShapeFrom()
      requires Linked(All()) && head.prev == null && tail.next == null && Sized(nodes) && listSize == Total(Contents())
      ensures Shape()
    {
    }

    lemma ValidFrom()
      requires Shape() && DistinctKeys(Contents()) && listSize <= MAX_CACHE_SIZE
      ensures Valid()
    {
    }

    /** init_cache. */
    constructor ()
      ensures Valid() && Contents() == [] && fresh(All())
    {
      listSize := 0;
      head := new Node("", []);
      tail := new Node("", []);
      nodes := [];
      new;
      head.next := tail;
      tail.prev := head;
      TotalNone();
    }

    /** The sentinels are not among the nodes, and the nodes differ. */
    lemma Apart()
      requires Linked(All())
      ensures head !in nodes && tail !in nodes && head != tail
      ensures forall i, j :: 0 <= i < j < |nodes| ==> nodes[i] != nodes[j]
    {
      assert All()[0] == head && All()[|nodes| + 1] == tail;
      assert forall i :: 0 <= i < |nodes| ==> All()[i + 1] == nodes[i];
    }

    /** The two assignments that take a node out of the list. */
    method Bypass(node: Node, ghost i: nat)
      requires Linked(All()) && i < |nodes| && nodes[i] == node
      modifies this`nodes, nodes`next, nodes`prev, head`next, tail`prev
      ensures nodes == old(nodes)[..i] + old(nodes)[i + 1..] && Linked(All())
    {
      ghost var all := All();
      assert all[i + 1] == node && node.prev == all[i] && node.next == all[i + 2];
      node.next.prev := node.prev;
      node.prev.next := node.next;
      nodes := nodes[..i] + nodes[i + 1..];
      ghost var now := All();
      assert forall k :: 0 <= k < |now| ==> now[k] == all[if k <= i then k else k + 1];
      forall k | 0 <= k < |now| - 1
        ensures now[k].next == now[k + 1] && now[k + 1].prev == now[k]
      {
        assert k <= i ==> now[k] == all[k];
        assert k > i ==> now[k] == all[k + 1] && now[k + 1] == all[k + 2];
      }
    }

    lemma Gone(i: nat)
      requires Linked(All()) && i < |nodes|
      ensures nodes[i] !in [head] + (nodes[..i] + nodes[i + 1..]) + [tail]
    {
      Apart();
    }

    method Unlink(node: Node, ghost i: nat)
      requires Linked(All()) && i < |nodes| && nodes[i] == node
      modifies this`nodes, nodes`next, nodes`prev, head`next, tail`prev
      ensures nodes == old(nodes)[..i] + old(nodes)[i + 1..] && Linked(All()) && node !in All()
      ensures head.prev == old(head.prev) && tail.next == old(tail.next)
      ensures Contents() == Without(old(Contents()), i) &&
        (old(Sized(nodes)) ==> Sized(nodes) && node.size == |node.value|)
    {
      ghost var was, es := nodes, Contents();
      assert old(Sized(nodes)) ==> node.size == |node.value|;
      Apart();
      Gone(i);
      hide Linked, Entries;
      Bypass(node, i);
      forall k | 0 <= k < |nodes|
        ensures Contents()[k] == Without(es, i)[k]
      {
        assert nodes[k] == was[if k < i then k else k + 1];
      }
    }

    /** The four assignments that put a node behind the head. */
    method Insert(node: Node)
      requires Linked(All()) && node !in All()
      modifies this`nodes, head`next, nodes`prev, tail`prev, node`next, node`prev
      ensures nodes == [node] + old(nodes) && Linked(All())
    {
      ghost var all := All();
      assert all[0].next == all[1];
      head.next.prev := node;
      node.next := head.next;
      head.next := node;
      node.prev := head;
      nodes := [node] + nodes;
      assert All() == [head, node] + all[1..];
    }

    method LinkFront(node: Node)
      requires Linked(All()) && node !in All()
      modifies this`nodes, head`next, nodes`prev, tail`prev, node`next, node`prev
      ensures nodes == [node] + old(nodes) && Linked(All())
      ensures head.prev == old(head.prev) && tail.next == old(tail.next)
      ensures Contents() == [Entry(node.key, node.value)] + old(Contents())
      ensures old(Sized(nodes)) && node.size == |node.value| ==> Sized(nodes)
    {
      Apart();
      assert head in All() && tail in All();
      hide Linked;
      Insert(node);
    }

    /** delete_node; the memory of the node is given back. */
    method DeleteNode(node: Node, ghost i: nat)
      requires Shape() && i < |nodes| && nodes[i] == node
      modifies this`listSize, this`nodes, nodes`next, nodes`prev, head`next, tail`prev
      ensures Shape() && nodes == old(nodes)[..i] + old(nodes)[i + 1..]
      ensures Contents() == Without(old(Contents()), i) && listSize == old(listSize) - old(node.size)
    {
      hide *;
      ShapeParts();
      TotalToFront(Contents(), i);
      EntryOf(i);
      listSize := listSize - node.size;
      Unlink(node, i);
      ShapeFrom();
    }

    /** find_node: the node with the key, which becomes the first; or NULL. */
    method FindNode(key: string) returns (output: Node?, ghost i: nat)
      requires Valid()
      modifies this`nodes, head, tail, nodes
      ensures Valid() && listSize == old(listSize)
      ensures output == null ==> !HasKey(old(Contents()), key) && Contents() == old(Contents())
      ensures output != null ==>
        i < |old(nodes)| && old(Contents())[i].key == key && Contents() == ToFront(old(Contents()), i)
      ensures output != null ==> |nodes| > 0 && nodes[0] == output && multiset(nodes) == multiset(old(nodes))
      ensures forall n :: n in nodes ==> n in old(nodes)
    {
      i := 0;
      assert All()[0].next == All()[1];
      output := head.next;
      while output != tail
        invariant i <= |nodes| && output == All()[i + 1] && Valid() &&
          nodes == old(nodes) && Contents() == old(Contents())
        invariant forall j :: 0 <= j < i ==> nodes[j].key != key
        decreases |nodes| - i
      {
        assert output == nodes[i];
        if key == output.key {
          DistinctToFront(Contents(), i);
          SameNodes(nodes, i);
          MoveToFront(output, i);
          return;
        }
        assert All()[i + 1].next == All()[i + 2];
        output := output.next;
        i := i + 1;
      }
      Apart();
      output := null;
    }

    method MoveToFront(node: Node, ghost i: nat)
      requires Shape() && i < |nodes| && nodes[i] == node
      modifies this`nodes, nodes, head, tail
      ensures Shape() && listSize == old(listSize) && Contents() == ToFront(old(Contents()), i)
      ensures nodes == [node] + (old(nodes)[..i] + old(nodes)[i + 1..])
    {
      hide *;
      ghost var es := Contents();
      ShapeParts();
      EntryOf(i);
      FrontIs(es, i);
      TotalToFront(es, i);
      SameNodes(nodes, i);
      Unlink(node, i);
      LinkFront(node);
      ShapeFrom();
    }

    /** get_value: a copy of the stored bytes, or NULL; the object becomes the most recently used one. */
    method GetValue(key: string) returns (found: bool, value: seq<bv8>, ghost i: nat)
      requires Valid()
      modifies this`nodes, head, tail, nodes
      ensures Valid() && listSize == old(listSize)
      ensures found <==> HasKey(old(Contents()), key)
      ensures found ==>
        i < |old(nodes)| && old(Contents())[i] == Entry(key, value) && Contents() == ToFront(old(Contents()), i)
      ensures !found ==> Contents() == old(Contents())
      ensures forall n :: n in nodes ==> n in old(nodes)
    {
      var temp;
      temp, i := FindNode(key);
      found := temp != null;
      value := [];
      if found {
        assert Contents()[0] == Entry(temp.key, temp.value) == old(Contents())[i];
        value := temp.value[..temp.size];
      }
    }

    method HasNode(key: string) returns (has: bool)
      requires Valid()
      ensures has <==> HasKey(Contents(), key)
    {
      ghost var i := 0;
      assert All()[0].next == All()[1];
      var temp := head.next;
      while temp != tail
        invariant i <= |nodes| && temp == All()[i + 1]
        invariant forall j :: 0 <= j < i ==> nodes[j].key != key
        decreases |nodes| - i
      {
        assert temp == nodes[i];
        if key == temp.key {
          assert Contents()[i].key == key;
          return true;
        }
        assert All()[i + 1].next == All()[i + 2];
        temp := temp.next;
        i := i + 1;
      }
      Apart();
      return false;
    }

    /** The locked part of write_node. */
    method AddNode(key: string, value: seq<bv8>) returns (crashed: bool)
      requires Valid() && !HasKey(Contents(), key)
      modifies this, head, tail, nodes
      ensures crashed <==> |value| > MAX_CACHE_SIZE
      ensures !crashed ==> Valid() && forall n :: n in nodes ==> n in old(nodes) || fresh(n)
      ensures !crashed ==> Contents() == [Entry(key, value)] + Kept(old(Contents()), MAX_CACHE_SIZE - |value|)
    {
      hide *;
      ghost var S := set n | n in nodes;
      NodesWithin();
      var newNode := new Node(key, value);
      crashed := AddLinked(newNode, S);
    }

    method AddLinked(node: Node, ghost S: set<Node>) returns (crashed: bool)
      requires Valid() && Within(S) && node !in S && node != head && node != tail && node.size == |node.value|
      requires !HasKey(Contents(), node.key)
      modifies this`listSize, this`nodes, head`next, tail`prev, S`next, S`prev, node`next, node`prev
      ensures crashed <==> node.size > MAX_CACHE_SIZE
      ensures !crashed ==> Valid() && forall n :: n in nodes ==> n in S || n == node
      ensures !crashed ==>
        Contents() == [Entry(node.key, node.value)] + Kept(old(Contents()), MAX_CACHE_SIZE - node.size)
    {
      hide *;
      ValidParts();
      NotAmong(node, S);
      SizeIsTotal();
      if listSize + node.size <= MAX_CACHE_SIZE {
        KeptAll(Contents(), MAX_CACHE_SIZE - node.size);
        PushFront(node, S);
        crashed := false;
      } else {
        crashed := EvictAndPush(node, S);
      }
    }

    method PushFront(node: Node, ghost S: set<Node>)
      requires Within(S) && Shape() && node !in All() && node.size == |node.value|
      requires DistinctKeys(Contents()) && !HasKey(Contents(), node.key) && listSize + node.size <= MAX_CACHE_SIZE
      modifies this`listSize, this`nodes, head`next, S`prev, tail`prev, node`next, node`prev
      ensures Valid() && forall n :: n in nodes ==> n in S || n == node
      ensures Contents() == [Entry(node.key, node.value)] + old(Contents())
    {
      hide *;
      WithinParts(S);
      ShapeParts();
      AddFirst(Entry(node.key, node.value), Contents());
      listSize := listSize + node.size;
      LinkFront(node);
      ShapeFrom();
      ValidFrom();
    }

    method EvictAndPush(node: Node, ghost S: set<Node>) returns (crashed: bool)
      requires Valid() && Within(S) && node !in S && node != head && node != tail && node.size == |node.value|
      requires !HasKey(Contents(), node.key) && listSize + node.size > MAX_CACHE_SIZE
      modifies this`listSize, this`nodes, head`next, tail`prev, S`next, S`prev, node`next, node`prev
      ensures crashed <==> node.size > MAX_CACHE_SIZE
      ensures !crashed ==> Valid() && forall n :: n in nodes ==> n in S || n == node
      ensures !crashed ==>
        Contents() == [Entry(node.key, node.value)] + Kept(old(Contents()), MAX_CACHE_SIZE - node.size)
    {
      hide *;
      crashed := Evict(node.size, node.key, S);
      if !crashed {
        NotAmong(node, S);
        PushFront(node, S);
      }
    }

    /** All nodes are in `S`, and the sentinels are not. */
    ghost predicate Within(S: set<Node>)
      reads this`nodes
    {
      head !in S && tail !in S && forall n :: n in nodes ==> n in S
    }

    lemma WithinParts(S: set<Node>)
      requires Within(S)
      ensures head !in S && tail !in S && forall n :: n in nodes ==> n in S
    {
    }

    lemma NodesWithin()
      requires Valid()
      ensures Within(set n | n in nodes)
    {
      Apart();
    }

    lemma NotAmong(node: Node, S: set<Node>)
      requires Within(S) && node !in S && node != head && node != tail
      ensures node !in All()
    {
    }

    /** The loop from the last node towards the head, until the new object fits. */
    method Evict(size: nat, ghost key: string, ghost S: set<Node>) returns (crashed: bool)
      requires Valid() && Within(S) && !HasKey(Contents(), key) && listSize + size > MAX_CACHE_SIZE
      modifies this`listSize, this`nodes, head`next, tail`prev, S`next, S`prev
      ensures crashed <==> size > MAX_CACHE_SIZE
      ensures !crashed ==> Shape() && Within(S) && listSize + size <= MAX_CACHE_SIZE
      ensures !crashed ==> Contents() == Kept(old(Contents()), MAX_CACHE_SIZE - size)
      ensures !crashed ==> DistinctKeys(Contents()) && !HasKey(Contents(), key)
    {
      ghost var es, room: nat := Contents(), if size <= MAX_CACHE_SIZE then MAX_CACHE_SIZE - size else 0;
      assert All()[|nodes| + 1].prev == All()[|nodes|];
      var lastone := tail.prev;
      crashed := true;
      hide *;
      while lastone != head && crashed
        invariant Shape() && Within(S) && DistinctKeys(Contents()) && !HasKey(Contents(), key)
        invariant lastone == All()[|nodes|] && (crashed <==> listSize + size > MAX_CACHE_SIZE)
        invariant size <= MAX_CACHE_SIZE ==> Kept(Contents(), room) == Kept(es, room)
        decreases |nodes|
      {
        SizeIsTotal();
        lastone := DeleteLast(lastone, key, room, S);
        crashed := listSize + size > MAX_CACHE_SIZE;
      }
      SizeIsTotal();
      if crashed {
        NoNodes();
      } else {
        KeptAll(Contents(), room);
      }
    }

    lemma ValidParts()
      requires Valid()
      ensures Shape() && DistinctKeys(Contents())
    {
    }

    lemma SizeIsTotal()
      requires Shape()
      ensures listSize == Total(Contents())
    {
    }

    /** The last node goes; the one before it is next. */
    method DeleteLast(lastone: Node, ghost key: string, ghost room: nat, ghost S: set<Node>) returns (lastPrev: Node)
      requires Shape() && Within(S) && lastone == All()[|nodes|] && lastone != head
      requires DistinctKeys(Contents()) && !HasKey(Contents(), key)
      modifies this`listSize, this`nodes, head`next, tail`prev, S`next, S`prev
      ensures Shape() && Within(S) && |nodes| + 1 == |old(nodes)| && lastPrev == All()[|nodes|]
      ensures old(Total(Contents())) > room ==> Kept(Contents(), room) == Kept(old(Contents()), room)
      ensures DistinctKeys(Contents()) && !HasKey(Contents(), key)
    {
      LastNode();
      lastPrev := lastone.prev;
      ghost var k := |nodes| - 1;
      WithoutLast(Contents(), room, key);
      hide Kept, HasKey, DistinctKeys, Total, Linked, Entries;
      DeleteNode(lastone, k);
    }

    lemma LastNode()
      requires Linked(All()) && All()[|nodes|] != head
      ensures |nodes| > 0 && All()[|nodes|] == nodes[|nodes| - 1] && nodes[|nodes| - 1].prev == All()[|nodes| - 1]
    {
      assert All()[|nodes|].prev == All()[|nodes| - 1];
    }

    lemma NoNodes()
      requires Shape() && All()[|nodes|] == head
      ensures nodes == [] && listSize == 0
    {
      Apart();
      TotalNone();
    }

    /** write_node: an object with a new key becomes the first one, and just as many of the least recently used
        objects go as it takes to make room. An object larger than the cache makes the loop run into the head,
        where it follows a NULL pointer. */
    method WriteNode(key: string, value: seq<bv8>) returns (crashed: bool)
      requires Valid()
      modifies this, head, tail, nodes
      ensures crashed <==> !HasKey(old(Contents()), key) && |value| > MAX_CACHE_SIZE
      ensures !crashed ==> Valid() && forall n :: n in nodes ==> n in old(nodes) || fresh(n)
      ensures !crashed ==> Contents() == if HasKey(old(Contents()), key) then old(Contents())
                                         else [Entry(key, value)] + Kept(old(Contents()), MAX_CACHE_SIZE - |value|)
    {
      var hasKey := HasNode(key);
      crashed := false;
      if !hasKey {
        crashed := AddNode(key, value);
      }
    }
  }

  lemma FrontIs(es: seq<Entry>, i: nat)
    requires i < |es|
    ensures ToFront(es, i) == [es[i]] + Without(es, i)
  {
  }

  lemma SameNodes(s: seq<Node>, i: nat)
    requires i < |s|
    ensures multiset([s[i]] + (s[..i] + s[i + 1..])) == multiset(s)
    ensures forall n :: n in s[..i] + s[i + 1..] ==> n in s
  {
    assert s == s[..i] + [s[i]] + s[i + 1..];
  }
}
