// Names of guardians, devices and participants.
module Names {
  import opened Bytes

  // A name is its UTF-8 bytes.
  type Name = Bytes

  predicate DistinctNames(s: seq<Name>) {
    forall i, j :: 0 <= i < j < |s| ==> s[i] != s[j]
  }

  lemma DistinctSnoc(s: seq<Name>)
    requires s != []
    ensures DistinctNames(s) <==> DistinctNames(s[..|s| - 1]) && s[|s| - 1] !in s[..|s| - 1]
  {
    var init, last := s[..|s| - 1], s[|s| - 1];
    if last in init {
      var i :| 0 <= i < |init| && init[i] == last;
      assert s[i] == s[|s| - 1];
    }
  }

  lemma SetSnoc(s: seq<Name>, init: seq<Name>, last: Name)
    requires s == init + [last]
    ensures (set x | x in s) == (set x | x in init) + {last}
  {
  }

  // Comparing the size of the set with the length detects repetition.
  lemma {:induction false} SetSizeDetectsRepetition(s: seq<Name>)
    ensures |set x | x in s| <= |s|
    ensures |set x | x in s| == |s| <==> DistinctNames(s)
  {
    if s != [] {
      var init, last := s[..|s| - 1], s[|s| - 1];
      var S := set x | x in init;
      SetSizeDetectsRepetition(init);
      DistinctSnoc(s);
      SetSnoc(s, init, last);
      if last in init {
        assert S + {last} == S;
      }
    }
  }
}
