/** `MultiDict`: an insertion-ordered sequence of key-value elements in which
    a key may occur any number of times. Every operation is a pure function
    of the current elements and its arguments; operations that mutate in the
    source (`add`, `popone`, `update`) return the new container. */
module MultiDicts {
  import opened Outcomes
  import opened Elements

  datatype MultiDict = MultiDict(elements: seq<MultiElement>)

  /** What `popone` hands back: the removed element or the error, and the
      container as it is afterwards. */
  datatype Popped = Popped(taken: Result<MultiElement>, remaining: MultiDict)

  /** `MultiDict::new`: a container with no elements. */
  function New(): (d: MultiDict)
    ensures Len(d) == 0
    ensures forall k :: !HasKey(d.elements, k)
  {
    MultiDict([])
  }

  /** `MultiDict::new_capacity`: the capacity only pre-sizes storage, so the
      result is indistinguishable from `New()`. */
  function NewCapacity(capacity: nat): (d: MultiDict)
    ensures d == New()
  {
    MultiDict([])
  }

  /** `len`: number of elements, each duplicate key counted separately. */
  function Len(d: MultiDict): (n: nat)
    ensures n == 0 <==> forall k :: !HasKey(d.elements, k)
  {
    assert d.elements != [] ==> HasKey(d.elements, d.elements[0].key);
    |d.elements|
  }

  /** `is_empty`. */
  function IsEmpty(d: MultiDict): (b: bool)
    ensures b <==> Len(d) == 0
  {
    d.elements == []
  }

  /** `add`: appends, never merging with an element of the same key. */
  function Add(d: MultiDict, e: MultiElement): (r: MultiDict)
    ensures Len(r) == Len(d) + 1
    ensures forall i :: 0 <= i < Len(d) ==> r.elements[i] == d.elements[i]
    ensures r.elements[Len(d)] == e
    ensures Count(r.elements, e.key) == Count(d.elements, e.key) + 1
  {
    CountAppend(d.elements, [e], e.key);
    assert Count([e], e.key) == 1 by {
      assert [e][1..] == [];
    }
    MultiDict(d.elements + [e])
  }

  /** `get`: the element at the smallest index whose key is `k`, or
      `KeyNotFound` exactly when no element has key `k`. */
  function Get(d: MultiDict, k: string): (r: Result<MultiElement>)
    ensures r.Err? <==> !HasKey(d.elements, k)
    ensures r.Ok? ==> exists i :: IsFirstMatch(d.elements, k, i) && r.value == d.elements[i]
  {
    match FirstIndex(d.elements, k)
    case None => Err(KeyNotFound)
    case Some(i) => Ok(d.elements[i])
  }

  /** `get` returns the element at whichever index is the first match. */
  lemma GetAtFirstMatch(d: MultiDict, k: string, i: int)
    requires IsFirstMatch(d.elements, k, i)
    ensures Get(d, k) == Ok(d.elements[i])
  {
  }

  /** `popone`: on success the first element with key `k` is returned and
      exactly that index is removed; on failure nothing changes. */
  function Popone(d: MultiDict, k: string): (r: Popped)
    ensures r.taken.Err? <==> !HasKey(d.elements, k)
    ensures r.taken.Err? ==> r.remaining == d
    ensures r.taken.Ok? ==>
      exists i :: && IsFirstMatch(d.elements, k, i)
                  && r.taken.value == d.elements[i]
                  && r.remaining.elements == RemoveAt(d.elements, i)
  {
    match FirstIndex(d.elements, k)
    case None => Popped(Err(KeyNotFound), d)
    case Some(i) => Popped(Ok(d.elements[i]), MultiDict(RemoveAt(d.elements, i)))
  }

  /** `getall`: a new container holding the elements with key `k` in source
      order, or `KeyNotFound` exactly when there are none. */
  function GetAll(d: MultiDict, k: string): (r: Result<MultiDict>)
    ensures r.Err? <==> !HasKey(d.elements, k)
    ensures r.Ok? ==> Len(r.value) == Count(d.elements, k) > 0
    ensures r.Ok? ==> forall x :: x in r.value.elements ==> x.key == k && x in d.elements
    ensures r.Ok? ==> forall j :: 0 <= j < Len(d) && d.elements[j].key == k ==> d.elements[j] in r.value.elements
    ensures r.Ok? ==> r.value.elements == Matching(d.elements, k)
  {
    var found := Matching(d.elements, k);
    forall j | 0 <= j < Len(d) && d.elements[j].key == k
      ensures d.elements[j] in found
    {
      MatchingKeepsEveryMatch(d.elements, k, j);
    }
    if found == [] then Err(KeyNotFound) else Ok(MultiDict(found))
  }

  /** `contains`: some element has key `k`. */
  function Contains(d: MultiDict, k: string): (b: bool)
    ensures b <==> HasKey(d.elements, k)
    decreases |d.elements|
  {
    if d.elements == [] then false
    else if d.elements[0].key == k then true
    else
      var rest := MultiDict(d.elements[1..]);
      assert forall i :: 1 <= i < Len(d) ==> d.elements[i] == rest.elements[i - 1];
      Contains(rest, k)
  }

  /** `keys`: every key in element order, duplicates included. */
  function Keys(d: MultiDict): (r: seq<string>)
    ensures |r| == Len(d)
    ensures forall i :: 0 <= i < Len(d) ==> r[i] == d.elements[i].key
    decreases |d.elements|
  {
    if d.elements == [] then []
    else [d.elements[0].key] + Keys(MultiDict(d.elements[1..]))
  }

  /** `values`: every value in element order, parallel to `Keys`. */
  function Values(d: MultiDict): (r: seq<string>)
    ensures |r| == Len(d)
    ensures forall i :: 0 <= i < Len(d) ==> r[i] == d.elements[i].value
    decreases |d.elements|
  {
    if d.elements == [] then []
    else [d.elements[0].value] + Values(MultiDict(d.elements[1..]))
  }

  /** `update`: every element whose key equals `e.key` is replaced by `e`
      at its own position; other elements stay put. An absent key is not an
      error. */
  function Update(d: MultiDict, e: MultiElement): (r: MultiDict)
    ensures Len(r) == Len(d)
    ensures forall i :: 0 <= i < Len(d) ==>
      r.elements[i] == (if d.elements[i].key == e.key then e else d.elements[i])
    decreases |d.elements|
  {
    if d.elements == [] then d
    else
      var head := d.elements[0];
      var rest := Update(MultiDict(d.elements[1..]), e);
      MultiDict([if head.key == e.key then e else head] + rest.elements)
  }
}
