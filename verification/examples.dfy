/** The outcomes shown in the documentation examples of src/lib.rs, stated
    about the model. */
module MultiDictExamples {
  import opened Outcomes
  import opened Elements
  import opened MultiDicts

  const v1 := MultiElement("some_key", "some_value_1")
  const v2 := MultiElement("some_key", "some_value_2")
  const v3 := MultiElement("some_other_key", "some_value_3")

  /** Two values under one key, added in order. */
  function TwoSame(): (d: MultiDict)
    ensures d.elements == [v1, v2]
  {
    Add(Add(New(), v1), v2)
  }

  /** The same two values followed by a value under a second key. */
  function ThreeMixed(): (d: MultiDict)
    ensures d.elements == [v1, v2, v3]
  {
    Add(TwoSame(), v3)
  }

  /** `len`, `is_empty`, `get` and `contains` on the documented containers. */
  lemma LookupExamples()
    ensures Len(TwoSame()) == 2 && Len(ThreeMixed()) == 3
    ensures !IsEmpty(TwoSame()) && IsEmpty(New())
    ensures Get(TwoSame(), "some_key") == Ok(v1)
    ensures Get(TwoSame(), "some_other_key") == Err(KeyNotFound)
    ensures Contains(TwoSame(), "some_key") && !Contains(TwoSame(), "some_other_key")
  {
  }

  /** `popone` takes the first of two values and keeps the second; with an
      absent key it fails and leaves both. */
  lemma PoponeExamples()
    ensures Popone(TwoSame(), "some_key") == Popped(Ok(v1), MultiDict([v2]))
    ensures Popone(TwoSame(), "some_other_key") == Popped(Err(KeyNotFound), TwoSame())
  {
  }

  /** `getall` keeps both values of one key, in order, and skips the other
      key; with an absent key it fails. */
  lemma GetAllExamples()
    ensures GetAll(ThreeMixed(), "some_key") == Ok(TwoSame())
    ensures GetAll(TwoSame(), "some_key") == Ok(TwoSame())
    ensures GetAll(TwoSame(), "some_other_key") == Err(KeyNotFound)
  {
    MatchingAppend([v1, v2], [v3], "some_key");
    assert [v1, v2] + [v3] == ThreeMixed().elements;
    assert Matching([v3], "some_key") == [] by {
      assert [v3][1..] == [];
    }
    MatchingAllMatch([v1, v2], "some_key");
  }

  /** `keys` and `values` list duplicates, in insertion order. */
  lemma ProjectionExamples()
    ensures Keys(ThreeMixed()) == ["some_key", "some_key", "some_other_key"]
    ensures Values(ThreeMixed()) == ["some_value_1", "some_value_2", "some_value_3"]
  {
  }

  /** `update` replaces the single element of its key in place, and replaces
      every element when all share its key. */
  lemma UpdateExamples()
    ensures Update(MultiDict([v1, MultiElement("some_other_key", "some_value_2")]),
                   MultiElement("some_other_key", "some_value_3"))
         == MultiDict([v1, MultiElement("some_other_key", "some_value_3")])
    ensures Update(TwoSame(), MultiElement("some_key", "some_value_3"))
         == MultiDict([MultiElement("some_key", "some_value_3"), MultiElement("some_key", "some_value_3")])
  {
  }
}
