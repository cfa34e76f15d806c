/**
 * One node of the tamper-evident chain: a value, a link to the successor and
 * a cached hash that commits to the value and to the successor's stored hash.
 *
 * `calc_hash` is Python's built-in `hash` on strings, which is salted per
 * process and not cryptographic. It is modelled as a parameter `calcHash`
 * that stays fixed while a list lives; nothing is assumed about it except
 * where a lemma states `Injective(calcHash)` as an explicit hypothesis.
 */
module SecuredNodes {
  import opened Results
  import opened Decimal

  /** The string hash function that `calc_hash` delegates to. */
  type Hasher = string -> int

  /** Collision freedom of the hash: an assumption made only by the lemmas that need it. */
  ghost predicate Injective(calcHash: Hasher) {
    forall a, b :: calcHash(a) == calcHash(b) ==> a == b
  }

  /**
   * The hash `_compute_hash` produces for a node holding `value` whose
   * successor has stored hash `nextHash` (None for the tail): the tail hashes
   * its value alone, any other node hashes its value followed by the decimal
   * text of the successor's stored hash.
   */
  function HashOf(calcHash: Hasher, value: string, nextHash: Option<int>): int {
    match nextHash
    case None => calcHash(value)
    case Some(h) => calcHash(value + IntToString(h))
  }

  /** `a + c == b + c` forces `a == b`. */
  lemma CancelSuffix(a: string, b: string, c: string)
    requires a + c == b + c
    ensures a == b
  {
    assert |a| == |b|;
    assert a == (a + c)[..|a|] == (b + c)[..|b|] == b;
  }

  /** `c + a == c + b` forces `a == b`. */
  lemma CancelPrefix(c: string, a: string, b: string)
    requires c + a == c + b
    ensures a == b
  {
    assert a == (c + a)[|c|..] == (c + b)[|c|..] == b;
  }

  /**
   * With an injective hash, changing a node's value changes its hash, as long
   * as its successor's stored hash is the same in both computations.
   */
  lemma HashOfSeparatesValues(calcHash: Hasher, v1: string, v2: string, nextHash: Option<int>)
    requires Injective(calcHash)
    requires v1 != v2
    ensures HashOf(calcHash, v1, nextHash) != HashOf(calcHash, v2, nextHash)
  {
    if nextHash.Some? {
      var t := IntToString(nextHash.value);
      if v1 + t == v2 + t {
        CancelSuffix(v1, v2, t);
      }
    }
  }

  /**
   * With an injective hash, a node's hash changes when its successor's stored
   * hash changes: `str` is injective, so the two hashed strings differ.
   */
  lemma HashOfSeparatesSuccessors(calcHash: Hasher, value: string, h1: int, h2: int)
    requires Injective(calcHash)
    requires h1 != h2
    ensures HashOf(calcHash, value, Some(h1)) != HashOf(calcHash, value, Some(h2))
  {
    if value + IntToString(h1) == value + IntToString(h2) {
      CancelPrefix(value, IntToString(h1), IntToString(h2));
      IntToStringInjective(h1, h2);
    }
  }

  /**
   * With an injective hash, a tail node and a non-tail node holding the same
   * value never share a hash: the decimal text appended is never empty.
   */
  lemma HashOfSeparatesTailFromInner(calcHash: Hasher, value: string, h: int)
    requires Injective(calcHash)
    ensures HashOf(calcHash, value, None) != HashOf(calcHash, value, Some(h))
  {
    assert |value + IntToString(h)| > |value|;
  }

  /**
   * The concatenation is not a unique encoding of the pair (value, successor
   * hash): "1" followed by 23 and "12" followed by 3 are hashed as the same
   * string, whatever the hash function.
   */
  lemma ConcatenationIsAmbiguous(calcHash: Hasher)
    ensures HashOf(calcHash, "1", Some(23)) == HashOf(calcHash, "12", Some(3))
  {
    assert NatToString(2) == "2";
    assert NatToString(23) == "2" + "3";
    assert IntToString(3) == "3";
    assert "1" + IntToString(23) == "12" + IntToString(3);
  }

  class SecuredNode {
    var value: string
    var next: SecuredNode?
    var hashValue: int

    /** The stored hash of the successor, or None for the tail. */
    function SuccessorHash(): (r: Option<int>)
      reads this, next
      ensures r.None? <==> next == null
    {
      if next == null then None else Some(next.hashValue)
    }

    /** `_compute_hash`: the hash this node ought to store in the current state. */
    function ComputeHash(calcHash: Hasher): int
      reads this, next
    {
      HashOf(calcHash, value, SuccessorHash())
    }

    /** `is_valid`: the stored hash agrees with a fresh computation. */
    predicate IsValid(calcHash: Hasher)
      reads this, next
    {
      hashValue == ComputeHash(calcHash)
    }

    /** A new node takes its hash from its value and its successor's stored hash, so it is valid. */
    constructor (calcHash: Hasher, value: string, nextNode: SecuredNode?)
      ensures this.value == value && next == nextNode
      ensures hashValue == HashOf(calcHash, value, if nextNode == null then None else Some(nextNode.hashValue))
      ensures IsValid(calcHash)
    {
      this.value := value;
      this.next := nextNode;
      this.hashValue := HashOf(calcHash, value, if nextNode == null then None else Some(nextNode.hashValue));
    }

    /**
     * `recompute_hash`: overwrite this node's stored hash, and nothing else,
     * with the hash of its value and its successor's stored hash.
     */
    method RecomputeHash(calcHash: Hasher)
      modifies this`hashValue
      ensures value == old(value) && next == old(next)
      ensures hashValue == HashOf(calcHash, value, old(SuccessorHash()))
      ensures next != this ==> IsValid(calcHash)
    {
      hashValue := ComputeHash(calcHash);
    }
  }
}
