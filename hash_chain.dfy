/**
 * The state of a secured linked list seen as a value: the sequence, head to
 * tail, of each node's (value, stored hash). The list operations are stated
 * here as functions of the old state, and their properties are proved here;
 * the classes in SecuredLinkedLists are proved to follow these functions.
 */
module HashChain {
  import opened Results
  import opened SecuredNodes

  datatype Entry = Entry(value: string, hash: int)

  /** The IndexError raised by `remove` and `insert`, by cause. */
  datatype IndexError =
    | EmptyList      // "Cannot remove from empty list"
    | NegativeIndex  // "Index out of range", raised for a negative index
    | PastEnd        // Python's own list IndexError, from indexing the collected nodes

  /** The stored hash of the successor of position k, or None at the tail. */
  function Successor(s: seq<Entry>, k: nat): Option<int>
    requires k < |s|
  {
    if k + 1 < |s| then Some(s[k + 1].hash) else None
  }

  /** Position k passes `is_valid`. */
  predicate ValidAt(calcHash: Hasher, s: seq<Entry>, k: nat)
    requires k < |s|
  {
    s[k].hash == HashOf(calcHash, s[k].value, Successor(s, k))
  }

  /** Every position from `from` on passes `is_valid`. */
  predicate ValidFrom(calcHash: Hasher, s: seq<Entry>, from: nat) {
    forall k :: from <= k < |s| ==> ValidAt(calcHash, s, k)
  }

  /** Every node passes `is_valid`. */
  predicate AllValid(calcHash: Hasher, s: seq<Entry>) {
    ValidFrom(calcHash, s, 0)
  }

  /** The values, head to tail. */
  function Values(s: seq<Entry>): (r: seq<string>)
    ensures |r| == |s|
  {
    seq(|s|, k requires 0 <= k < |s| => s[k].value)
  }

  /**
   * The scan of `find_tampered_node` from position i on: the first invalid
   * position, head to tail, or None when every position from i on is valid.
   */
  function FirstInvalidFrom(calcHash: Hasher, s: seq<Entry>, i: nat): (r: Option<nat>)
    requires i <= |s|
    ensures r.None? <==> ValidFrom(calcHash, s, i)
    ensures r.Some? ==> i <= r.value < |s| && !ValidAt(calcHash, s, r.value)
    ensures r.Some? ==> forall k :: i <= k < r.value ==> ValidAt(calcHash, s, k)
    decreases |s| - i
  {
    if i == |s| then None
    else if !ValidAt(calcHash, s, i) then Some(i)
    else FirstInvalidFrom(calcHash, s, i + 1)
  }

  /** What `find_tampered_node` reports, as a position. */
  function FirstInvalid(calcHash: Hasher, s: seq<Entry>): Option<nat> {
    FirstInvalidFrom(calcHash, s, 0)
  }

  /** `add(value)`: a new head whose hash commits to the old head's stored hash. */
  function Prepend(calcHash: Hasher, s: seq<Entry>, value: string): seq<Entry> {
    [Entry(value, HashOf(calcHash, value, if s == [] then None else Some(s[0].hash)))] + s
  }

  /** `recompute_hash` applied to position k. */
  function Recompute(calcHash: Hasher, s: seq<Entry>, k: nat): seq<Entry>
    requires k < |s|
  {
    s[k := Entry(s[k].value, HashOf(calcHash, s[k].value, Successor(s, k)))]
  }

  /**
   * `_rehash_nodes` on the first m positions: recompute position m - 1, then
   * m - 2, and so on down to the head.
   */
  function RehashDown(calcHash: Hasher, s: seq<Entry>, m: nat): seq<Entry>
    requires m <= |s|
    decreases m
  {
    if m == 0 then s else RehashDown(calcHash, Recompute(calcHash, s, m - 1), m - 1)
  }

  /** `insert(index, value)` on the state s: the new state, or the IndexError raised. */
  function InsertModel(calcHash: Hasher, s: seq<Entry>, index: int, value: string): Result<seq<Entry>, IndexError> {
    if index < 0 then Err(NegativeIndex)
    else if index == 0 then Ok(Prepend(calcHash, s, value))
    else if index > |s| then Err(PastEnd)
    else
      var added := Entry(value, HashOf(calcHash, value, if index < |s| then Some(s[index].hash) else None));
      Ok(RehashDown(calcHash, s[..index] + [added] + s[index..], index))
  }

  /** `remove(index)` on the state s: the new state, or the IndexError raised. */
  function RemoveModel(calcHash: Hasher, s: seq<Entry>, index: int): Result<seq<Entry>, IndexError> {
    if s == [] then Err(EmptyList)
    else if index < 0 then Err(NegativeIndex)
    else if index == 0 then Ok(s[1..])
    else if index >= |s| then Err(PastEnd)
    else Ok(RehashDown(calcHash, s[..index] + s[index + 1..], index))
  }

  // ---------------------------------------------------------------------------
  // Properties

  /** The empty list is a valid chain and nothing is reported as tampered. */
  lemma EmptyChainIsValid(calcHash: Hasher)
    ensures AllValid(calcHash, []) && FirstInvalid(calcHash, []) == None
  {
  }

  /**
   * Validity of a position depends only on that entry and the next one, so
   * two states that agree from position `from` on agree on validity there.
   */
  lemma ValidFromDependsOnSuffix(calcHash: Hasher, s: seq<Entry>, t: seq<Entry>, from: nat, shift: nat)
    requires from <= |s| && shift <= from && |t| == |s| - shift
    requires t[from - shift..] == s[from..]
    ensures ValidFrom(calcHash, t, from - shift) <==> ValidFrom(calcHash, s, from)
  {
    forall j | from - shift <= j < |t|
      ensures ValidAt(calcHash, t, j) <==> ValidAt(calcHash, s, j + shift)
    {
      assert t[j] == t[from - shift..][j - (from - shift)] == s[j + shift];
      if j + 1 < |t| {
        assert t[j + 1] == t[from - shift..][j + 1 - (from - shift)] == s[j + 1 + shift];
      }
    }
    forall k | from <= k < |s|
      ensures ValidAt(calcHash, t, k - shift) <==> ValidAt(calcHash, s, k)
    {
      var j := k - shift;
      assert ValidAt(calcHash, t, j) <==> ValidAt(calcHash, s, j + shift);
    }
  }

  /**
   * `add` leaves every pre-existing entry as it was, puts `value` at the head,
   * makes the head valid, and keeps a fully valid chain fully valid.
   */
  lemma PrependProperties(calcHash: Hasher, s: seq<Entry>, value: string)
    ensures var r := Prepend(calcHash, s, value);
      && r[1..] == s
      && Values(r) == [value] + Values(s)
      && ValidAt(calcHash, r, 0)
      && (AllValid(calcHash, r) <==> AllValid(calcHash, s))
  {
    var r := Prepend(calcHash, s, value);
    ValidFromDependsOnSuffix(calcHash, r, s, 1, 1);
  }

  /** After `_rehash_nodes` of the first m positions. */
  lemma {:induction false} RehashDownProperties(calcHash: Hasher, s: seq<Entry>, m: nat)
    requires m <= |s|
    ensures var r := RehashDown(calcHash, s, m);
      && |r| == |s|
      && Values(r) == Values(s)
      && r[m..] == s[m..]
      && (forall k :: 0 <= k < m ==> ValidAt(calcHash, r, k))
      && (ValidFrom(calcHash, s, m) ==> AllValid(calcHash, r))
    decreases m
  {
    if m > 0 {
      var t := Recompute(calcHash, s, m - 1);
      RehashDownProperties(calcHash, t, m - 1);
      var r := RehashDown(calcHash, s, m);
      assert r == RehashDown(calcHash, t, m - 1);
      assert Values(t) == Values(s);
      assert t[m..] == s[m..];
      assert ValidAt(calcHash, t, m - 1);
      assert r[m - 1] == t[m - 1];
      assert Successor(r, m - 1) == Successor(t, m - 1);
      if ValidFrom(calcHash, s, m) {
        ValidFromDependsOnSuffix(calcHash, s, t, m, 0);
      }
    }
  }

  /**
   * `insert(index, value)`: fails exactly for a negative index or one past
   * the length, and otherwise places `value` at `index`, keeps the entries
   * from `index` on untouched, and keeps a valid chain valid. At index 0 it
   * is `add`.
   */
  lemma InsertModelProperties(calcHash: Hasher, s: seq<Entry>, index: int, value: string)
    ensures InsertModel(calcHash, s, index, value).Ok? <==> 0 <= index <= |s|
    ensures index < 0 ==> InsertModel(calcHash, s, index, value) == Err(NegativeIndex)
    ensures index > |s| ==> InsertModel(calcHash, s, index, value) == Err(PastEnd)
    ensures index == 0 ==> InsertModel(calcHash, s, index, value) == Ok(Prepend(calcHash, s, value))
    ensures InsertModel(calcHash, s, index, value).Ok? ==>
      var r := InsertModel(calcHash, s, index, value).value;
      && Values(r) == Values(s)[..index] + [value] + Values(s)[index..]
      && r[index + 1..] == s[index..]
      && ValidAt(calcHash, r, index)
      && (ValidFrom(calcHash, s, index) ==> AllValid(calcHash, r))
  {
    if index == 0 {
      PrependProperties(calcHash, s, value);
    } else if 0 < index <= |s| {
      var added := Entry(value, HashOf(calcHash, value, if index < |s| then Some(s[index].hash) else None));
      var spliced := s[..index] + [added] + s[index..];
      RehashDownProperties(calcHash, spliced, index);
      var r := RehashDown(calcHash, spliced, index);
      assert Values(spliced) == Values(s)[..index] + [value] + Values(s)[index..];
      assert spliced[index + 1..] == s[index..];
      assert r[index..] == spliced[index..];
      assert ValidAt(calcHash, spliced, index);
      assert r[index] == r[index..][0] == spliced[index];
      if index + 1 < |r| {
        assert r[index + 1] == r[index..][1] == spliced[index + 1];
      }
      if ValidFrom(calcHash, s, index) {
        ValidFromDependsOnSuffix(calcHash, spliced, s, index + 1, 1);
      }
    }
  }

  /**
   * `remove(index)`: fails on an empty list, a negative index or one at or past
   * the length, and otherwise drops exactly the entry at `index`, keeps the
   * entries after it untouched and keeps a valid chain valid. Removing the
   * head rehashes nothing.
   */
  lemma RemoveModelProperties(calcHash: Hasher, s: seq<Entry>, index: int)
    ensures RemoveModel(calcHash, s, index).Ok? <==> 0 <= index < |s|
    ensures s == [] ==> RemoveModel(calcHash, s, index) == Err(EmptyList)
    ensures s != [] && index < 0 ==> RemoveModel(calcHash, s, index) == Err(NegativeIndex)
    ensures s != [] && index >= |s| ==> RemoveModel(calcHash, s, index) == Err(PastEnd)
    ensures s != [] && index == 0 ==> RemoveModel(calcHash, s, index) == Ok(s[1..])
    ensures RemoveModel(calcHash, s, index).Ok? ==>
      var r := RemoveModel(calcHash, s, index).value;
      && Values(r) == Values(s)[..index] + Values(s)[index + 1..]
      && r[index..] == s[index + 1..]
      && (ValidFrom(calcHash, s, index + 1) ==> AllValid(calcHash, r))
  {
    if index == 0 && s != [] {
      ValidFromDependsOnSuffix(calcHash, s, s[1..], 1, 1);
    } else if 0 < index < |s| {
      var spliced := s[..index] + s[index + 1..];
      RehashDownProperties(calcHash, spliced, index);
      assert Values(spliced) == Values(s)[..index] + Values(s)[index + 1..];
      assert spliced[index..] == s[index + 1..];
      if ValidFrom(calcHash, s, index + 1) {
        ValidFromDependsOnSuffix(calcHash, s, spliced, index + 1, 1);
      }
    }
  }

  /**
   * Out-of-band overwrite of the value at position k of a valid chain: with an
   * injective hash, the scan reports position k itself, because its successor's
   * stored hash is untouched while its own value changed.
   */
  lemma ValueTamperReportedAtNode(calcHash: Hasher, s: seq<Entry>, k: nat, v: string)
    requires Injective(calcHash)
    requires AllValid(calcHash, s)
    requires k < |s| && v != s[k].value
    ensures FirstInvalid(calcHash, s[k := Entry(v, s[k].hash)]) == Some(k)
  {
    var t := s[k := Entry(v, s[k].hash)];
    forall j | 0 <= j < k
      ensures ValidAt(calcHash, t, j)
    {
      assert ValidAt(calcHash, s, j);
      assert Successor(t, j) == Successor(s, j);
    }
    assert Successor(t, k) == Successor(s, k);
    assert ValidAt(calcHash, s, k);
    HashOfSeparatesValues(calcHash, v, s[k].value, Successor(s, k));
    assert !ValidAt(calcHash, t, k);
  }

  /**
   * Out-of-band overwrite of the stored hash at position k of a valid chain:
   * the scan reports the predecessor, whose hash committed to the old stored
   * hash (assuming an injective hash), or the head itself when k is 0.
   */
  lemma HashTamperReportedAtPredecessor(calcHash: Hasher, s: seq<Entry>, k: nat, x: int)
    requires Injective(calcHash)
    requires AllValid(calcHash, s)
    requires k < |s| && x != s[k].hash
    ensures FirstInvalid(calcHash, s[k := Entry(s[k].value, x)]) == Some(if k == 0 then 0 else k - 1)
  {
    var t := s[k := Entry(s[k].value, x)];
    if k == 0 {
      assert ValidAt(calcHash, s, 0);
      assert Successor(t, 0) == Successor(s, 0);
      assert !ValidAt(calcHash, t, 0);
    } else {
      forall j | 0 <= j < k - 1
        ensures ValidAt(calcHash, t, j)
      {
        assert ValidAt(calcHash, s, j);
        assert Successor(t, j) == Successor(s, j);
      }
      assert ValidAt(calcHash, s, k - 1);
      assert Successor(s, k - 1) == Some(s[k].hash) && Successor(t, k - 1) == Some(x);
      HashOfSeparatesSuccessors(calcHash, s[k - 1].value, s[k].hash, x);
      assert !ValidAt(calcHash, t, k - 1);
    }
  }

  /**
   * Out-of-band relinking of the node at position p of a valid chain to a
   * different continuation `u`: when the new successor's stored hash differs
   * from the old one (or one of the two is the tail's absence of a successor),
   * the scan reports p itself, whose hash committed to the old successor
   * (assuming an injective hash). A relink to a node with the same stored hash
   * would go unnoticed at p, so the hypothesis is needed.
   */
  lemma RelinkReportedAtPredecessor(calcHash: Hasher, s: seq<Entry>, p: nat, u: seq<Entry>)
    requires Injective(calcHash)
    requires AllValid(calcHash, s)
    requires p < |s|
    requires Successor(s[..p + 1] + u, p) != Successor(s, p)
    ensures FirstInvalid(calcHash, s[..p + 1] + u) == Some(p)
  {
    var t := s[..p + 1] + u;
    forall j | 0 <= j < p
      ensures ValidAt(calcHash, t, j)
    {
      assert ValidAt(calcHash, s, j);
      assert t[j] == s[j] && t[j + 1] == s[j + 1];
      assert Successor(t, j) == Successor(s, j);
    }
    assert t[p] == s[p];
    assert ValidAt(calcHash, s, p);
    var value := s[p].value;
    var before, after := Successor(s, p), Successor(t, p);
    if before.None? {
      HashOfSeparatesTailFromInner(calcHash, value, after.value);
    } else if after.None? {
      HashOfSeparatesTailFromInner(calcHash, value, before.value);
    } else {
      HashOfSeparatesSuccessors(calcHash, value, before.value, after.value);
    }
    assert !ValidAt(calcHash, t, p);
  }

  /**
   * Three `add`s of the same value: with an injective hash the three stored
   * hashes are pairwise distinct, because each commits to a different
   * successor hash or to none.
   */
  lemma SameValueAddsHaveDistinctHashes(calcHash: Hasher, value: string)
    requires Injective(calcHash)
    ensures var s := Prepend(calcHash, Prepend(calcHash, Prepend(calcHash, [], value), value), value);
      && |s| == 3
      && s[0].hash != s[1].hash && s[1].hash != s[2].hash && s[0].hash != s[2].hash
  {
    var s := Prepend(calcHash, Prepend(calcHash, Prepend(calcHash, [], value), value), value);
    assert s[2].hash == HashOf(calcHash, value, None);
    assert s[1].hash == HashOf(calcHash, value, Some(s[2].hash));
    assert s[0].hash == HashOf(calcHash, value, Some(s[1].hash));
    HashOfSeparatesTailFromInner(calcHash, value, s[2].hash);
    HashOfSeparatesTailFromInner(calcHash, value, s[1].hash);
    HashOfSeparatesSuccessors(calcHash, value, s[1].hash, s[2].hash);
  }
}
