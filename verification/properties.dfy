/** Properties that relate several MultiDict operations. */
module MultiDictProperties {
  import opened Outcomes
  import opened Elements
  import opened MultiDicts

  /** A fresh container, with or without a capacity hint, is empty: every
      lookup fails, the projections are empty and `update` changes nothing. */
  lemma EmptyContainer(capacity: nat, k: string, e: MultiElement)
    ensures IsEmpty(New()) && IsEmpty(NewCapacity(capacity))
    ensures Get(New(), k) == Err(KeyNotFound)
    ensures GetAll(New(), k) == Err(KeyNotFound)
    ensures Popone(New(), k) == Popped(Err(KeyNotFound), New())
    ensures !Contains(New(), k)
    ensures Keys(New()) == [] && Values(New()) == []
    ensures Update(New(), e) == New()
  {
  }

  /** `keys` and `values` are parallel: zipped back together they give the
      elements, so both have `len` entries. */
  lemma KeysValuesZip(d: MultiDict)
    ensures |Keys(d)| == |Values(d)| == Len(d)
    ensures forall i :: 0 <= i < Len(d) ==> MultiElement(Keys(d)[i], Values(d)[i]) == d.elements[i]
  {
  }

  /** `contains` holds exactly when `get` succeeds, and exactly when
      `getall` succeeds. */
  lemma ContainsIffFound(d: MultiDict, k: string)
    ensures Contains(d, k) <==> Get(d, k).Ok?
    ensures Contains(d, k) <==> GetAll(d, k).Ok?
  {
  }

  /** Appending leaves the first match of every already present key where it
      was. */
  lemma AddKeepsFirstMatch(d: MultiDict, e: MultiElement, k: string)
    requires HasKey(d.elements, k)
    ensures Get(Add(d, e), k) == Get(d, k)
  {
  }

  /** Appending does not change how often any other key occurs. */
  lemma AddKeepsOtherCounts(d: MultiDict, e: MultiElement, k: string)
    requires k != e.key
    ensures Count(Add(d, e).elements, k) == Count(d.elements, k)
  {
    assert Add(d, e).elements == d.elements + [e];
    CountAppend(d.elements, [e], k);
    assert [e][1..] == [];
  }

  /** `d` after `add` has been called with each of `es` in turn. */
  function AddAll(d: MultiDict, es: seq<MultiElement>): MultiDict
    decreases |es|
  {
    if es == [] then d else AddAll(Add(d, es[0]), es[1..])
  }

  /** After a series of `add` calls the added elements follow the earlier
      ones, in call order. */
  lemma {:induction false} AddAllKeepsOrder(d: MultiDict, es: seq<MultiElement>)
    ensures AddAll(d, es).elements == d.elements + es
    decreases |es|
  {
    if es != [] {
      AddAllKeepsOrder(Add(d, es[0]), es[1..]);
      assert Add(d, es[0]).elements == d.elements + [es[0]];
      assert d.elements + [es[0]] + es[1..] == d.elements + es;
    }
  }

  /** Starting from `new`, after a series of `add` calls `keys` lists the
      added keys in call order. */
  lemma AddAllKeys(es: seq<MultiElement>)
    ensures Keys(AddAll(New(), es)) == seq(|es|, i requires 0 <= i < |es| => es[i].key)
  {
    AddAllKeepsOrder(New(), es);
  }

  /** `popone` hands back exactly what `get` returns for the same key. */
  lemma PoponeTakesGet(d: MultiDict, k: string)
    ensures Popone(d, k).taken == Get(d, k)
  {
  }

  /** A successful `popone` removes exactly one element, one occurrence of
      `k`, and no occurrence of any other key. */
  lemma PoponeRemovesOne(d: MultiDict, k: string, other: string)
    requires Popone(d, k).taken.Ok?
    ensures Len(Popone(d, k).remaining) == Len(d) - 1
    ensures Count(Popone(d, k).remaining.elements, k) == Count(d.elements, k) - 1
    ensures other != k ==>
      Count(Popone(d, k).remaining.elements, other) == Count(d.elements, other)
  {
    var p := Popone(d, k);
    var i :| && IsFirstMatch(d.elements, k, i)
             && p.taken.value == d.elements[i]
             && p.remaining.elements == RemoveAt(d.elements, i);
    CountRemoveAt(d.elements, i, k);
    CountRemoveAt(d.elements, i, other);
  }

  /** Adding an element under a key the container does not hold and then
      popping that key restores the container and returns the element. */
  lemma AddThenPopone(d: MultiDict, e: MultiElement)
    requires !HasKey(d.elements, e.key)
    ensures Popone(Add(d, e), e.key) == Popped(Ok(e), d)
  {
  }

  /** The first element of `getall`'s result is the element `get` returns. */
  lemma GetAllStartsWithGet(d: MultiDict, k: string)
    requires GetAll(d, k).Ok?
    ensures Get(GetAll(d, k).value, k) == Get(d, k)
  {
    var i := FirstIndex(d.elements, k).value;
    GetAtFirstMatch(d, k, i);
    MatchingHead(d.elements, k, i);
    var m := GetAll(d, k).value;
    assert IsFirstMatch(m.elements, k, 0);
    GetAtFirstMatch(m, k, 0);
  }

  /** `getall` applied to its own result gives that result back. */
  lemma GetAllIdempotent(d: MultiDict, k: string)
    requires GetAll(d, k).Ok?
    ensures GetAll(GetAll(d, k).value, k) == GetAll(d, k)
  {
    MatchingAllMatch(GetAll(d, k).value.elements, k);
  }

  /** `update` with a key the container does not hold changes nothing. */
  lemma UpdateAbsentIsNoop(d: MultiDict, e: MultiElement)
    requires !HasKey(d.elements, e.key)
    ensures Update(d, e) == d
  {
  }

  /** Updating twice with the same element is the same as updating once. */
  lemma UpdateIdempotent(d: MultiDict, e: MultiElement)
    ensures Update(Update(d, e), e) == Update(d, e)
  {
  }

  /** `update` keeps every key at its position and every key's count; the
      elements under `e.key` afterwards are all `e`. */
  lemma UpdateKeepsKeys(d: MultiDict, e: MultiElement, k: string)
    ensures Keys(Update(d, e)) == Keys(d)
    ensures Count(Update(d, e).elements, k) == Count(d.elements, k)
    ensures forall x :: x in Matching(Update(d, e).elements, e.key) ==> x == e
  {
    UpdateCount(d.elements, Update(d, e).elements, e, k);
    var m := Matching(Update(d, e).elements, e.key);
    forall x | x in m
      ensures x == e
    {
      var i :| 0 <= i < Len(d) && Update(d, e).elements[i] == x;
    }
  }

  /** Elementwise replacement that preserves keys preserves every count. */
  lemma {:induction false} UpdateCount(s: seq<MultiElement>, t: seq<MultiElement>, e: MultiElement, k: string)
    requires |t| == |s|
    requires forall i :: 0 <= i < |s| ==> t[i] == (if s[i].key == e.key then e else s[i])
    ensures Count(t, k) == Count(s, k)
    decreases |s|
  {
    if |s| > 0 {
      UpdateCount(s[1..], t[1..], e, k);
    }
  }
}
