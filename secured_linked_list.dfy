/**
 * The secured linked list: a head reference to a chain of SecuredNode objects.
 * The ghost spine `Nodes` names the nodes head to tail; `Snapshot()` reads
 * their (value, stored hash) pairs, and every operation is proved to turn the
 * old snapshot into the one the HashChain model prescribes.
 */
module SecuredLinkedLists {
  import opened Results
  import opened SecuredNodes
  import opened HashChain

  function Min(a: int, b: int): int { if a < b then a else b }

  class SecuredLinkedList {
    const calcHash: Hasher
    var head: SecuredNode?
    ghost var Nodes: seq<SecuredNode>

    /** The spine is the chain reached from `head`: linked in order, null-terminated, no node twice. */
    ghost predicate Valid()
      reads this, Nodes
    {
      && head == (if Nodes == [] then null else Nodes[0])
      && (forall k :: 0 <= k < |Nodes| - 1 ==> Nodes[k].next == Nodes[k + 1])
      && (Nodes != [] ==> Nodes[|Nodes| - 1].next == null)
      && (forall j, k :: 0 <= j < k < |Nodes| ==> Nodes[j] != Nodes[k])
    }

    /** Each node's value and stored hash, head to tail. */
    ghost function Snapshot(): (s: seq<Entry>)
      reads this, Nodes
      ensures |s| == |Nodes|
    {
      seq(|Nodes|, k requires 0 <= k < |Nodes| reads this, Nodes => Entry(Nodes[k].value, Nodes[k].hashValue))
    }

    /** A node's own `is_valid` is the model's validity at its position. */
    lemma IsValidAt(k: nat)
      requires Valid() && k < |Nodes|
      ensures Nodes[k].IsValid(calcHash) <==> ValidAt(calcHash, Snapshot(), k)
    {
      var s := Snapshot();
      if k + 1 < |Nodes| {
        assert Nodes[k].next == Nodes[k + 1];
        assert Nodes[k].SuccessorHash() == Some(s[k + 1].hash) == Successor(s, k);
      } else {
        assert Nodes[k].SuccessorHash() == None == Successor(s, k);
      }
    }

    /** `__init__`: an empty list. */
    constructor (calcHash: Hasher)
      ensures Valid() && this.calcHash == calcHash
      ensures Nodes == [] && head == null
    {
      this.calcHash := calcHash;
      head := null;
      Nodes := [];
    }

    /**
     * `_collect_nodes_up_to(index)`: the nodes at positions 0..index, or all
     * of them when the list is shorter (none for a negative index).
     */
    method CollectNodesUpTo(index: int) returns (nodes: seq<SecuredNode>)
      requires Valid()
      ensures nodes == Nodes[..if index < 0 then 0 else Min(index + 1, |Nodes|)]
    {
      nodes := [];
      var current := head;
      var i := 0;
      while current != null && i <= index
        invariant 0 <= i <= |Nodes|
        invariant i == 0 || i <= index + 1
        invariant nodes == Nodes[..i]
        invariant current == if i < |Nodes| then Nodes[i] else null
        decreases |Nodes| - i
      {
        nodes := nodes + [current];
        current := current.next;
        i := i + 1;
      }
    }

    /**
     * `_rehash_nodes(nodes)` on a prefix of the chain: recompute the hashes of
     * those nodes from the last to the first, changing no value or link.
     */
    method RehashNodes(nodes: seq<SecuredNode>)
      requires Valid()
      requires |nodes| <= |Nodes| && nodes == Nodes[..|nodes|]
      modifies nodes
      ensures Valid()
      ensures forall k :: 0 <= k < |Nodes| ==> Nodes[k].next == old(Nodes[k].next)
      ensures Snapshot() == RehashDown(calcHash, old(Snapshot()), |nodes|)
    {
      for i := |nodes| downto 0
        invariant Valid()
        invariant forall k :: 0 <= k < |Nodes| ==> Nodes[k].next == old(Nodes[k].next)
        invariant RehashDown(calcHash, Snapshot(), i) == RehashDown(calcHash, old(Snapshot()), |nodes|)
      {
        RecomputeAt(nodes[i], i);
      }
    }

    /** `recompute_hash` on the node at position i, seen on the snapshot. */
    method RecomputeAt(node: SecuredNode, ghost i: nat)
      requires Valid() && i < |Nodes| && node == Nodes[i]
      modifies node`hashValue
      ensures Valid()
      ensures Snapshot() == Recompute(calcHash, old(Snapshot()), i)
    {
      ghost var before := Snapshot();
      assert Nodes[i].SuccessorHash() == Successor(before, i) by {
        if i + 1 < |Nodes| {
          assert Nodes[i].next == Nodes[i + 1];
        }
      }
      node.RecomputeHash(calcHash);
      forall k | 0 <= k < |Nodes|
        ensures Snapshot()[k] == Recompute(calcHash, before, i)[k]
      {
        if k != i {
          assert Nodes[k] != Nodes[i];
        }
      }
    }

    /** The chain passes every node's `is_valid`. */
    ghost predicate ChainValid()
      reads this, Nodes
    {
      AllValid(calcHash, Snapshot())
    }

    /**
     * `add(value)`: prepend a node whose hash commits to the old head's stored
     * hash. No pre-existing node is touched.
     */
    method Add(value: string)
      requires Valid()
      modifies this
      ensures Valid()
      ensures Snapshot() == Prepend(calcHash, old(Snapshot()), value)
      ensures fresh(head) && Nodes == [head] + old(Nodes)
      ensures head.value == value && head.next == old(head)
      ensures old(ChainValid()) ==> ChainValid()
    {
      ghost var before := Snapshot();
      var node := new SecuredNode(calcHash, value, head);
      head := node;
      Nodes := [node] + Nodes;
      assert Snapshot() == Prepend(calcHash, before, value);
      PrependProperties(calcHash, before, value);
    }
  
    /**
     * `remove(index)`: raises on an empty list, a negative index or an index
     * at or past the length, before anything changes; otherwise unlinks the
     * node at `index` and rehashes the nodes before it, tail to head.
     */
    method Remove(index: int) returns (r: Option<IndexError>)
      requires Valid()
      modifies this, Nodes
      ensures Valid()
      ensures var model := RemoveModel(calcHash, old(Snapshot()), index);
        && (model.Err? ==> r == Some(model.error) && Nodes == old(Nodes) && Snapshot() == old(Snapshot()))
        && (model.Ok? ==> r == None && Snapshot() == model.value && Nodes == old(Nodes[..index] + Nodes[index + 1..]))
      ensures old(ChainValid()) ==> ChainValid()
    {
      ghost var before := Snapshot();
      if head == null {
        return Some(EmptyList);
      }
      if index < 0 {
        return Some(NegativeIndex);
      }
      if index == 0 {
        DropHead();
        RemoveModelProperties(calcHash, before, index);
        return None;
      }
      var nodes := CollectNodesUpTo(index);
      if index >= |nodes| {
        // `nodes[index]` raises before the predecessor is relinked
        return Some(PastEnd);
      }
      CutOut(nodes, index);
      RemoveModelProperties(calcHash, before, index);
      return None;
    }

    /** The successful path of `remove` at index > 0: unlink the node, then rehash the prefix. */
    method CutOut(nodes: seq<SecuredNode>, index: nat)
      requires Valid() && 0 < index < |Nodes|
      requires nodes == Nodes[..index + 1]
      modifies this, Nodes
      ensures Valid()
      ensures Nodes == old(Nodes[..index] + Nodes[index + 1..])
      ensures Snapshot() == RemoveModel(calcHash, old(Snapshot()), index).value
    {
      Unlink(nodes[index - 1], nodes[index], index);
      RehashNodes(nodes[..index]);
    }

    /**
     * `insert(index, value)`: raises on a negative index or one past the
     * length, before any link or hash changes; index 0 is `add`; otherwise
     * links a new node in at `index` and rehashes the nodes before it, tail to
     * head.
     */
    method Insert(index: int, value: string) returns (r: Option<IndexError>)
      requires Valid()
      modifies this, Nodes
      ensures Valid()
      ensures var model := InsertModel(calcHash, old(Snapshot()), index, value);
        && (model.Err? ==> r == Some(model.error) && Nodes == old(Nodes) && Snapshot() == old(Snapshot()))
        && (model.Ok? ==>
              && r == None && Snapshot() == model.value
              && |Nodes| == |old(Nodes)| + 1 && fresh(Nodes[index])
              && Nodes == old(Nodes[..index]) + [Nodes[index]] + old(Nodes[index..]))
      ensures old(ChainValid()) ==> ChainValid()
    {
      ghost var before := Snapshot();
      if index < 0 {
        return Some(NegativeIndex);
      }
      if index == 0 {
        Add(value);
        InsertModelProperties(calcHash, before, index, value);
        return None;
      }
      r := InsertPastHead(index, value);
    }

    /** `insert(index, value)` for index > 0: collect the prefix, then link and rehash. */
    method InsertPastHead(index: int, value: string) returns (r: Option<IndexError>)
      requires Valid() && index > 0
      modifies this, Nodes
      ensures Valid()
      ensures var model := InsertModel(calcHash, old(Snapshot()), index, value);
        && (model.Err? ==> r == Some(model.error) && Nodes == old(Nodes) && Snapshot() == old(Snapshot()))
        && (model.Ok? ==>
              && r == None && Snapshot() == model.value
              && |Nodes| == |old(Nodes)| + 1 && fresh(Nodes[index])
              && Nodes == old(Nodes[..index]) + [Nodes[index]] + old(Nodes[index..]))
      ensures old(ChainValid()) ==> ChainValid()
    {
      ghost var before := Snapshot();
      var nodes := CollectNodesUpTo(index);
      var nextNode := if index < |nodes| then nodes[index] else null;
      var node := new SecuredNode(calcHash, value, nextNode);
      if index - 1 >= |nodes| {
        // `nodes[index - 1]` raises; the new node is never linked in
        return Some(PastEnd);
      }
      SpliceIn(nodes, node, index, value);
      InsertModelProperties(calcHash, before, index, value);
      return None;
    }

    /** The successful path of `insert` at index > 0: link the new node in, then rehash the prefix. */
    method SpliceIn(nodes: seq<SecuredNode>, node: SecuredNode, index: nat, ghost value: string)
      requires Valid() && 0 < index <= |Nodes| && node !in Nodes
      requires nodes == Nodes[..Min(index + 1, |Nodes|)]
      requires node.value == value
      requires node.next == (if index < |Nodes| then Nodes[index] else null)
      requires node.hashValue == HashOf(calcHash, value, if index < |Nodes| then Some(Nodes[index].hashValue) else None)
      modifies this, Nodes
      ensures Valid()
      ensures Nodes == old(Nodes[..index]) + [node] + old(Nodes[index..])
      ensures Snapshot() == InsertModel(calcHash, old(Snapshot()), index, value).value
    {
      LinkAfter(nodes[index - 1], node, index);
      RehashNodes(nodes[..index]);
    }

    /** `self.head = self.head.next`: drop the head, touching no node. */
    method DropHead()
      requires Valid() && head != null
      modifies this
      ensures Valid()
      ensures Nodes == old(Nodes[1..]) && Snapshot() == old(Snapshot()[1..])
    {
      head := head.next;
      Nodes := Nodes[1..];
    }

    /** `nodes[index - 1].next = nodes[index].next`: drop position `index` from the chain. */
    method Unlink(pred: SecuredNode, victim: SecuredNode, ghost index: nat)
      requires Valid() && 0 < index < |Nodes|
      requires pred == Nodes[index - 1] && victim == Nodes[index]
      modifies this, pred`next
      ensures Valid()
      ensures Nodes == old(Nodes[..index] + Nodes[index + 1..])
      ensures Snapshot() == old(Snapshot()[..index] + Snapshot()[index + 1..])
    {
      ghost var before := Snapshot();
      pred.next := victim.next;
      Nodes := Nodes[..index] + Nodes[index + 1..];
      forall k | 0 <= k < |Nodes|
        ensures Snapshot()[k] == (before[..index] + before[index + 1..])[k]
      {
      }
    }

    /** `nodes[index - 1].next = node` for a new node already pointing at position `index`. */
    method LinkAfter(pred: SecuredNode, node: SecuredNode, ghost index: nat)
      requires Valid() && 0 < index <= |Nodes|
      requires pred == Nodes[index - 1] && node !in Nodes
      requires node.next == if index < |Nodes| then Nodes[index] else null
      modifies this, pred`next
      ensures Valid()
      ensures Nodes == old(Nodes[..index]) + [node] + old(Nodes[index..])
      ensures Snapshot() == old(Snapshot()[..index]) + [Entry(node.value, node.hashValue)] + old(Snapshot()[index..])
    {
      ghost var before := Snapshot();
      pred.next := node;
      Nodes := Nodes[..index] + [node] + Nodes[index..];
      forall k | 0 <= k < |Nodes|
        ensures Snapshot()[k] == (before[..index] + [Entry(node.value, node.hashValue)] + before[index..])[k]
      {
      }
    }

    /**
     * `find_tampered_node`: the first node, head to tail, that fails
     * `is_valid`, or null when every node passes.
     */
    method FindTamperedNode() returns (r: SecuredNode?)
      requires Valid()
      ensures r == match FirstInvalid(calcHash, Snapshot())
                   case None => null
                   case Some(k) => Nodes[k]
    {
      var current := head;
      ghost var i := 0;
      while current != null
        invariant 0 <= i <= |Nodes|
        invariant current == if i < |Nodes| then Nodes[i] else null
        invariant forall k :: 0 <= k < i ==> ValidAt(calcHash, Snapshot(), k)
        decreases |Nodes| - i
      {
        IsValidAt(i);
        if !current.IsValid(calcHash) {
          return current;
        }
        current := current.next;
        i := i + 1;
      }
      return null;
    }

    /** `is_valid_chain`: true exactly when no node is reported as tampered. */
    method IsValidChain() returns (b: bool)
      requires Valid()
      ensures b <==> ChainValid()
      ensures b <==> FirstInvalid(calcHash, Snapshot()) == None
    {
      var r := FindTamperedNode();
      b := r == null;
    }
  
    /** Out-of-band tampering as the tests do it: `node.value = v` on the node at position k. */
    method OverwriteValue(node: SecuredNode, ghost k: nat, v: string)
      requires Valid() && k < |Nodes| && Nodes[k] == node
      modifies node`value
      ensures Valid() && Nodes == old(Nodes)
      ensures Snapshot() == old(Snapshot())[k := Entry(v, old(Snapshot())[k].hash)]
    {
      node.value := v;
    }

    /** Out-of-band tampering of a stored digest: `node.hash_value = x` on the node at position k. */
    method OverwriteHash(node: SecuredNode, ghost k: nat, x: int)
      requires Valid() && k < |Nodes| && Nodes[k] == node
      modifies node`hashValue
      ensures Valid() && Nodes == old(Nodes)
      ensures Snapshot() == old(Snapshot())[k := Entry(old(Snapshot())[k].value, x)]
    {
      node.hashValue := x;
    }

    /** `is_valid_chain()` and `find_tampered_node()` on a list whose first invalid position is k. */
    method Scan(ghost k: nat) returns (valid: bool, found: SecuredNode?)
      requires Valid() && k < |Nodes| && FirstInvalid(calcHash, Snapshot()) == Some(k)
      ensures !valid && found == Nodes[k]
    {
      valid := IsValidChain();
      found := FindTamperedNode();
    }

    /**
     * Tampering with the value of the node at position k of a valid list: the
     * chain stops being valid and the scan reports that very node.
     */
    method DetectValueTamper(node: SecuredNode, ghost k: nat, v: string) returns (valid: bool, found: SecuredNode?)
      requires Valid() && ChainValid() && Injective(calcHash)
      requires k < |Nodes| && Nodes[k] == node && v != node.value
      modifies node`value
      ensures !valid && found == node
    {
      ghost var s := Snapshot();
      assert s[k].value == node.value;
      ValueTamperReportedAtNode(calcHash, s, k, v);
      OverwriteValue(node, k, v);
      valid, found := Scan(k);
    }

    /**
     * Tampering with the stored digest of the node at position k of a valid
     * list: the scan reports its predecessor, or the head when k is 0.
     */
    method DetectHashTamper(node: SecuredNode, ghost k: nat, x: int) returns (valid: bool, found: SecuredNode?)
      requires Valid() && ChainValid() && Injective(calcHash)
      requires k < |Nodes| && Nodes[k] == node && x != node.hashValue
      modifies node`hashValue
      ensures !valid && found == Nodes[if k == 0 then 0 else k - 1]
    {
      ghost var p := if k == 0 then 0 else k - 1;
      ghost var s := Snapshot();
      assert s[k].hash == node.hashValue;
      HashTamperReportedAtPredecessor(calcHash, s, k, x);
      OverwriteHash(node, k, x);
      valid, found := Scan(p);
    }
  
    /**
     * Out-of-band relinking: `pred.next = target` on the node at position p,
     * where `target` is the node at a later position q (null for q at the
     * end), so that the nodes strictly between p and q leave the chain.
     */
    method OverwriteNext(pred: SecuredNode, ghost p: nat, target: SecuredNode?, ghost q: nat)
      requires Valid() && p < q <= |Nodes| && pred == Nodes[p]
      requires target == if q < |Nodes| then Nodes[q] else null
      modifies this, pred`next
      ensures Valid()
      ensures Nodes == old(Nodes[..p + 1] + Nodes[q..])
      ensures Snapshot() == old(Snapshot()[..p + 1] + Snapshot()[q..])
    {
      ghost var before := Snapshot();
      pred.next := target;
      Nodes := Nodes[..p + 1] + Nodes[q..];
      forall k | 0 <= k < |Nodes|
        ensures Snapshot()[k] == (before[..p + 1] + before[q..])[k]
      {
      }
    }

    /**
     * Relinking the node at position p of a valid list past its successor to
     * a node with a different stored hash (or to the end):
     * the chain stops being valid and the scan reports the relinked node.
     */
    method DetectRelinkTamper(pred: SecuredNode, ghost p: nat, target: SecuredNode?, ghost q: nat)
      returns (valid: bool, found: SecuredNode?)
      requires Valid() && ChainValid() && Injective(calcHash)
      requires p < q <= |Nodes| && pred == Nodes[p]
      requires target == if q < |Nodes| then Nodes[q] else null
      requires (if target == null then None else Some(target.hashValue)) != pred.SuccessorHash()
      modifies this, pred`next
      ensures !valid && found == pred
    {
      ghost var s := Snapshot();
      assert pred.SuccessorHash() == Successor(s, p) by {
        if p + 1 < |Nodes| {
          assert Nodes[p].next == Nodes[p + 1];
        }
      }
      assert Successor(s[..p + 1] + s[q..], p) == if target == null then None else Some(target.hashValue) by {
        if q < |Nodes| {
          assert (s[..p + 1] + s[q..])[p + 1] == s[q];
        }
      }
      RelinkReportedAtPredecessor(calcHash, s, p, s[q..]);
      OverwriteNext(pred, p, target, q);
      valid, found := Scan(p);
    }
  }
}
