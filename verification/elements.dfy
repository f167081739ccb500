/** The element type of a MultiDict and the facts about sequences of elements
    that the container's operations are specified by. */
module Elements {
  import opened Outcomes

  /** One key-value pair. Keys are compared by exact string equality and the
      same key may occur in many elements of one container. */
  datatype MultiElement = MultiElement(key: string, value: string)

  /** `MultiElement::new`: the first string of the two-string array becomes
      the key, the second the value. */
  function NewElement(pair: seq<string>): (e: MultiElement)
    requires |pair| == 2
    ensures [e.key, e.value] == pair
  {
    MultiElement(pair[0], pair[1])
  }

  /** Some element of `s` has key `k`. */
  ghost predicate HasKey(s: seq<MultiElement>, k: string) {
    exists i :: 0 <= i < |s| && s[i].key == k
  }

  /** `i` is the smallest index of `s` whose element has key `k`. */
  ghost predicate IsFirstMatch(s: seq<MultiElement>, k: string, i: int) {
    && 0 <= i < |s|
    && s[i].key == k
    && forall j :: 0 <= j < i ==> s[j].key != k
  }

  /** At most one index is the first match. */
  lemma FirstMatchUnique(s: seq<MultiElement>, k: string, i: int, j: int)
    requires IsFirstMatch(s, k, i) && IsFirstMatch(s, k, j)
    ensures i == j
  {
  }

  /** Index of the first element with key `k`, scanning from the front. */
  function FirstIndex(s: seq<MultiElement>, k: string): (r: Option<nat>)
    ensures r.None? <==> !HasKey(s, k)
    ensures r.Some? ==> IsFirstMatch(s, k, r.value)
    decreases |s|
  {
    if |s| == 0 then None
    else if s[0].key == k then Some(0)
    else
      match FirstIndex(s[1..], k)
      case None =>
        assert forall i :: 1 <= i < |s| ==> s[i] == s[1..][i - 1];
        None
      case Some(i) =>
        assert forall j :: 1 <= j <= i ==> s[j] == s[1..][j - 1];
        Some(i + 1)
  }

  /** Number of elements of `s` whose key is `k`. */
  function Count(s: seq<MultiElement>, k: string): (n: nat)
    ensures n <= |s|
    ensures n == 0 <==> !HasKey(s, k)
    decreases |s|
  {
    if |s| == 0 then 0
    else
      assert forall i :: 1 <= i < |s| ==> s[i] == s[1..][i - 1];
      (if s[0].key == k then 1 else 0) + Count(s[1..], k)
  }

  /** The elements of `s` whose key is `k`, in the order they occur in `s`. */
  function Matching(s: seq<MultiElement>, k: string): (r: seq<MultiElement>)
    ensures |r| == Count(s, k)
    ensures forall x :: x in r ==> x.key == k && x in s
    decreases |s|
  {
    if |s| == 0 then []
    else (if s[0].key == k then [s[0]] else []) + Matching(s[1..], k)
  }

  /** Every element of `s` with key `k` is among the matches, so the filter
      drops nothing it should keep. */
  lemma {:induction false} MatchingKeepsEveryMatch(s: seq<MultiElement>, k: string, j: int)
    requires 0 <= j < |s| && s[j].key == k
    ensures s[j] in Matching(s, k)
    decreases |s|
  {
    if j > 0 {
      MatchingKeepsEveryMatch(s[1..], k, j - 1);
    }
  }

  /** Filtering distributes over concatenation: the matches of `a + b` are
      the matches of `a` followed by the matches of `b`. Together with the
      single-element case this fixes both the contents and the order of
      `Matching`. */
  lemma {:induction false} MatchingAppend(a: seq<MultiElement>, b: seq<MultiElement>, k: string)
    ensures Matching(a + b, k) == Matching(a, k) + Matching(b, k)
    decreases |a|
  {
    if |a| == 0 {
      assert a + b == b;
    } else {
      assert (a + b)[0] == a[0];
      assert (a + b)[1..] == a[1..] + b;
      MatchingAppend(a[1..], b, k);
    }
  }

  /** Extending a prefix of `s` by one element extends its matches by that
      element exactly when the element has key `k`. */
  lemma MatchingSnoc(s: seq<MultiElement>, i: nat, k: string)
    requires i < |s|
    ensures Matching(s[..i + 1], k) == Matching(s[..i], k) + (if s[i].key == k then [s[i]] else [])
  {
    MatchingAppend(s[..i], [s[i]], k);
    assert s[..i + 1] == s[..i] + [s[i]];
    assert [s[i]][1..] == [];
  }

  /** Counting distributes over concatenation. */
  lemma CountAppend(a: seq<MultiElement>, b: seq<MultiElement>, k: string)
    ensures Count(a + b, k) == Count(a, k) + Count(b, k)
  {
    MatchingAppend(a, b, k);
  }

  /** `Vec::remove(i)`: the element at `i` goes, later elements shift down. */
  function RemoveAt(s: seq<MultiElement>, i: nat): (r: seq<MultiElement>)
    requires i < |s|
    ensures |r| == |s| - 1
    ensures forall j :: 0 <= j < i ==> r[j] == s[j]
    ensures forall j :: i <= j < |r| ==> r[j] == s[j + 1]
  {
    s[..i] + s[i + 1..]
  }

  /** `Vec::insert(i, x)`: `x` lands at `i`, later elements shift up. */
  function InsertAt(s: seq<MultiElement>, i: nat, x: MultiElement): (r: seq<MultiElement>)
    requires i <= |s|
    ensures |r| == |s| + 1
    ensures r[i] == x
    ensures forall j :: 0 <= j < i ==> r[j] == s[j]
    ensures forall j :: i < j < |r| ==> r[j] == s[j - 1]
  {
    s[..i] + [x] + s[i..]
  }

  /** Removing the element at `i` and inserting `x` at `i` replaces the
      element at `i` by `x` and leaves every other position alone. */
  lemma RemoveThenInsert(s: seq<MultiElement>, i: nat, x: MultiElement)
    requires i < |s|
    ensures InsertAt(RemoveAt(s, i), i, x) == s[i := x]
  {
  }

  /** Removing one element lowers the count of its key by one and leaves the
      count of every other key unchanged. */
  lemma CountRemoveAt(s: seq<MultiElement>, i: nat, k: string)
    requires i < |s|
    ensures Count(RemoveAt(s, i), k) == Count(s, k) - (if s[i].key == k then 1 else 0)
  {
    assert s == s[..i] + [s[i]] + s[i + 1..];
    CountAppend(s[..i] + [s[i]], s[i + 1..], k);
    CountAppend(s[..i], [s[i]], k);
    CountAppend(s[..i], s[i + 1..], k);
    assert Count([s[i]], k) == (if s[i].key == k then 1 else 0) by {
      assert [s[i]][1..] == [];
    }
  }

  /** The first of the matches is the element at the first matching index. */
  lemma {:induction false} MatchingHead(s: seq<MultiElement>, k: string, i: int)
    requires IsFirstMatch(s, k, i)
    ensures Matching(s, k) != [] && Matching(s, k)[0] == s[i]
    decreases |s|
  {
    if s[0].key != k {
      assert IsFirstMatch(s[1..], k, i - 1);
      MatchingHead(s[1..], k, i - 1);
    }
  }

  /** A sequence whose every key is `k` is its own set of matches. */
  lemma {:induction false} MatchingAllMatch(s: seq<MultiElement>, k: string)
    requires forall x :: x in s ==> x.key == k
    ensures Matching(s, k) == s
    decreases |s|
  {
    if |s| > 0 {
      assert forall x :: x in s[1..] ==> x in s;
      MatchingAllMatch(s[1..], k);
    }
  }
}
