/** The loops of src/lib.rs written out as methods, each proved to compute
    the corresponding function of `MultiDicts`. */
module MultiDictScans {
  import opened Outcomes
  import opened Elements
  import opened MultiDicts

  /** `get`: scan from the front and return the first element with key `k`. */
  method GetScan(d: MultiDict, k: string) returns (r: Result<MultiElement>)
    ensures r == Get(d, k)
  {
    var s := d.elements;
    var i := 0;
    while i < |s|
      invariant 0 <= i <= |s|
      invariant forall j :: 0 <= j < i ==> s[j].key != k
    {
      if s[i].key == k {
        GetAtFirstMatch(d, k, i);
        return Ok(s[i]);
      }
      i := i + 1;
    }
    return Err(KeyNotFound);
  }

  /** `popone`: scan for the first element with key `k`, remove it from its
      index and return it; the container is untouched on failure. */
  method PoponeScan(d: MultiDict, k: string) returns (r: Popped)
    ensures r == Popone(d, k)
  {
    var s := d.elements;
    var idx := 0;
    while idx < |s|
      invariant 0 <= idx <= |s|
      invariant forall j :: 0 <= j < idx ==> s[j].key != k
    {
      if s[idx].key == k {
        assert IsFirstMatch(s, k, idx);
        forall j | IsFirstMatch(s, k, j) ensures j == idx {
          FirstMatchUnique(s, k, idx, j);
        }
        return Popped(Ok(s[idx]), MultiDict(RemoveAt(s, idx)));
      }
      idx := idx + 1;
    }
    return Popped(Err(KeyNotFound), d);
  }

  /** `getall`: copy every element with key `k` into a fresh container with
      `add`, then report `KeyNotFound` if that container is empty. */
  method GetAllScan(d: MultiDict, k: string) returns (r: Result<MultiDict>)
    ensures r == GetAll(d, k)
  {
    var s := d.elements;
    var results := New();
    var i := 0;
    while i < |s|
      invariant 0 <= i <= |s|
      invariant results.elements == Matching(s[..i], k)
    {
      MatchingSnoc(s, i, k);
      if s[i].key == k {
        results := Add(results, s[i]);
      }
      i := i + 1;
    }
    assert s[..i] == s;
    if !IsEmpty(results) {
      r := Ok(results);
    } else {
      r := Err(KeyNotFound);
    }
  }

  /** `contains`: true as soon as an element with key `k` is met. */
  method ContainsScan(d: MultiDict, k: string) returns (b: bool)
    ensures b == Contains(d, k)
  {
    var s := d.elements;
    var i := 0;
    while i < |s|
      invariant 0 <= i <= |s|
      invariant forall j :: 0 <= j < i ==> s[j].key != k
    {
      if s[i].key == k {
        return true;
      }
      i := i + 1;
    }
    return false;
  }

  /** `keys`: push every key, in element order. */
  method KeysScan(d: MultiDict) returns (r: seq<string>)
    ensures r == Keys(d)
  {
    var s := d.elements;
    r := [];
    var i := 0;
    while i < |s|
      invariant 0 <= i <= |s|
      invariant |r| == i
      invariant forall j :: 0 <= j < i ==> r[j] == s[j].key
    {
      r := r + [s[i].key];
      i := i + 1;
    }
  }

  /** `values`: push every value, in element order. */
  method ValuesScan(d: MultiDict) returns (r: seq<string>)
    ensures r == Values(d)
  {
    var s := d.elements;
    r := [];
    var i := 0;
    while i < |s|
      invariant 0 <= i <= |s|
      invariant |r| == i
      invariant forall j :: 0 <= j < i ==> r[j] == s[j].value
    {
      r := r + [s[i].value];
      i := i + 1;
    }
  }

  /** `update`: first collect, in increasing order, every index whose key is
      `e.key`; then, for each collected index, remove the element there and
      insert `e` at the same index. The match set is fixed by the first pass
      and not re-evaluated while elements are replaced. */
  method UpdateScan(d: MultiDict, e: MultiElement) returns (r: MultiDict)
    ensures r == Update(d, e)
  {
    var s := d.elements;
    var ids: seq<nat> := [];
    var i := 0;
    while i < |s|
      invariant 0 <= i <= |s|
      invariant forall j :: 0 <= j < |ids| ==> ids[j] < i
      invariant forall p :: 0 <= p < i ==> (s[p].key == e.key <==> p in ids)
    {
      if s[i].key == e.key {
        ids := ids + [i];
      }
      i := i + 1;
    }

    var cur := s;
    var n := 0;
    while n < |ids|
      invariant 0 <= n <= |ids|
      invariant |cur| == |s|
      invariant forall p :: 0 <= p < |s| ==> cur[p] == (if p in ids[..n] then e else s[p])
    {
      var idx := ids[n];
      RemoveThenInsert(cur, idx, e);
      cur := InsertAt(RemoveAt(cur, idx), idx, e);
      assert ids[..n + 1] == ids[..n] + [idx];
      n := n + 1;
    }
    assert ids[..n] == ids;
    r := MultiDict(cur);
  }
}
