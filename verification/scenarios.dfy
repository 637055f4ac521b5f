/**
  Concrete runs worked through the model: a layered configuration where
  the later document overrides a scalar and extends a sequence, a run that
  aborts on a sequence landing on a scalar, an empty mapping that leaves a
  scalar in place, and an empty mapping that leaves a sequence in place
  for a later document to extend.
 */
module Scenario {
  import opened Tree
  import opened DeepMerge
  import opened Run

  /** `db: {host: h1, ports: [1]}` */
  function FirstDb(): map<string, Node>
  {
    map["host" := Scalar(Str("h1")), "ports" := List([Scalar(Int(1))])]
  }

  /** `db: {host: h2, ports: [2]}` */
  function SecondDb(): map<string, Node>
  {
    map["host" := Scalar(Str("h2")), "ports" := List([Scalar(Int(2))])]
  }

  /** `db: {host: h2, ports: [1, 2]}` */
  function MergedDb(): map<string, Node>
  {
    map["host" := Scalar(Str("h2")), "ports" := List([Scalar(Int(1)), Scalar(Int(2))])]
  }

  /** The inner mappings: the later host wins, the ports concatenate. */
  lemma InnerMerge()
    ensures Merge(SecondDb(), FirstDb()) == Some(MergedDb())
  {
    assert [Scalar(Int(1))] + [Scalar(Int(2))] == [Scalar(Int(1)), Scalar(Int(2))];
    MergeEqual(SecondDb(), FirstDb(), MergedDb());
  }

  /** The top level recurses into the existing `db` mapping. */
  lemma OuterMerge()
    ensures Merge(map["db" := Map(SecondDb())], map["db" := Map(FirstDb())]) == Some(map["db" := Map(MergedDb())])
  {
    InnerMerge();
    MergeEqual(map["db" := Map(SecondDb())], map["db" := Map(FirstDb())], map["db" := Map(MergedDb())]);
  }

  /** Merging the two documents in order, from `{}`. */
  lemma OverlayExample()
    ensures Fold([Some(Map(map["db" := Map(FirstDb())])), Some(Map(map["db" := Map(SecondDb())]))])
            == Some(map["db" := Map(MergedDb())])
  {
    var d1, d2 := map["db" := Map(FirstDb())], map["db" := Map(SecondDb())];
    MergeIntoEmpty(d1);
    OuterMerge();
    var docs := [Some(Map(d1)), Some(Map(d2))];
    assert Step(map[], docs[0]) == Some(d1);
    assert Step(d1, docs[1]) == Some(map["db" := Map(MergedDb())]);
    assert docs[1..][1..] == [];
  }

  /** `{a: 1}` followed by `{a: [2]}`: `extend` is called on an integer and
      the run aborts with status 1. */
  lemma ListOverScalarCrashes()
    ensures RunDocuments([Some(Map(map["a" := Scalar(Int(1))])), Some(Map(map["a" := List([Scalar(Int(2))])]))]) == Crashed
    ensures ExitStatus(RunDocuments([Some(Map(map["a" := Scalar(Int(1))])), Some(Map(map["a" := List([Scalar(Int(2))])]))])) == 1
  {
    var d1 := map["a" := Scalar(Int(1))];
    var docs := [Some(Map(d1)), Some(Map(map["a" := List([Scalar(Int(2))])]))];
    MergeIntoEmpty(d1);
    assert Step(map[], docs[0]) == Some(d1);
    ListAppends(map["a" := List([Scalar(Int(2))])], d1, "a");
    assert Step(d1, docs[1]) == None;
  }

  /** `{a: 1}` followed by `{a: {}}`: `setdefault` hands the recursive
      merge the integer, which has no key to receive, so `a` stays 1. */
  lemma ScalarSurvivesEmptyMapping()
    ensures Fold([Some(Map(map["a" := Scalar(Int(1))])), Some(Map(map["a" := Map(map[])]))])
            == Some(map["a" := Scalar(Int(1))])
  {
    var d1 := map["a" := Scalar(Int(1))];
    var d2 := map["a" := Map(map[])];
    var docs := [Some(Map(d1)), Some(Map(d2))];
    MergeIntoEmpty(d1);
    assert Step(map[], docs[0]) == Some(d1);
    MergeEqual(d2, d1, d1);
    assert Step(d1, docs[1]) == Some(d1);
    assert docs[1..][1..] == [];
  }

  /** `{a: [1]}`, then `{a: {}}`, then `{a: [2]}`: the empty mapping
      leaves the sequence in place and the last document extends it. */
  lemma SequenceSurvivesEmptyMapping()
    ensures Fold([Some(Map(map["a" := List([Scalar(Int(1))])])), Some(Map(map["a" := Map(map[])])),
                  Some(Map(map["a" := List([Scalar(Int(2))])]))])
            == Some(map["a" := List([Scalar(Int(1)), Scalar(Int(2))])])
  {
    var d1 := map["a" := List([Scalar(Int(1))])];
    var docs := [Some(Map(d1)), Some(Map(map["a" := Map(map[])])), Some(Map(map["a" := List([Scalar(Int(2))])]))];
    MergeIntoEmpty(d1);
    assert Step(map[], docs[0]) == Some(d1);
    EmptyMappingKeepsSequence();
    assert docs[1..][1..] == [docs[2]];
    SequenceExtends();
    assert docs[1..][1..][1..] == [];
  }

  /** `{a: {}}` merged into `{a: [1]}` changes nothing. */
  lemma EmptyMappingKeepsSequence()
    ensures Merge(map["a" := Map(map[])], map["a" := List([Scalar(Int(1))])]) == Some(map["a" := List([Scalar(Int(1))])])
  {
    var d1 := map["a" := List([Scalar(Int(1))])];
    MergeEqual(map["a" := Map(map[])], d1, d1);
  }

  /** `{a: [2]}` merged into `{a: [1]}` gives `{a: [1, 2]}`. */
  lemma SequenceExtends()
    ensures Merge(map["a" := List([Scalar(Int(2))])], map["a" := List([Scalar(Int(1))])])
            == Some(map["a" := List([Scalar(Int(1)), Scalar(Int(2))])])
  {
    assert [Scalar(Int(1))] + [Scalar(Int(2))] == [Scalar(Int(1)), Scalar(Int(2))];
    MergeEqual(map["a" := List([Scalar(Int(2))])], map["a" := List([Scalar(Int(1))])],
               map["a" := List([Scalar(Int(1)), Scalar(Int(2))])]);
  }
}
