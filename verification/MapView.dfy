/** The finite map that a partitioned set stands for. */
module MapView {
  import opened Basics
  import opened NodeOps
  import opened ConcurrentState
  import opened Separation

  ghost predicate Represents(s: State, contents: map<int, int>)
    requires WellFormed(s)
  {
    forall e :: Holds(s, e) <==> Entry(contents, e.key) == Some(e)
  }

  ghost function Contents(s: State): map<int, int>
    requires WellFormed(s)
  {
    var keys := set k, i | k in s.index && 0 <= i < |NodeAt(s, k)| :: NodeAt(s, k)[i].key;
    map key | key in keys && Lookup(s, key).Some? :: Lookup(s, key).value.val
  }

  /** The entries of a partitioned set form a map. */
  lemma EveryPartitionIsAMap(s: State)
    requires Sound(s)
    ensures Represents(s, Contents(s))
  {
    forall e ensures Holds(s, e) <==> Entry(Contents(s), e.key) == Some(e) {
      LookupFindsExactlyTheStored(s, e);
      LookupAnswers(s, e.key);
      if Holds(s, e) {
        var k :| k in s.index && e in NodeAt(s, k);
        var i :| 0 <= i < |NodeAt(s, k)| && NodeAt(s, k)[i] == e;
        assert NodeAt(s, k)[i].key == e.key;
      }
    }
  }

  lemma PutsUpdate(s: State, t: State, v: Pair, contents: map<int, int>)
    requires WellFormed(s) && WellFormed(t) && Represents(s, contents) && Puts(s, t, v)
    ensures Represents(t, contents[v.key := v.val])
  {
  }

  lemma AnswerIsEntry(s: State, contents: map<int, int>, r: Option<Pair>, key: int)
    requires WellFormed(s) && Represents(s, contents) && Answers(r, e => Holds(s, e), key)
    ensures r == Entry(contents, key)
  {
    if key in contents { assert Holds(s, Pair(key, contents[key])); }
  }

  lemma RemovesUpdate(s: State, t: State, key: int, contents: map<int, int>)
    requires WellFormed(s) && WellFormed(t) && Represents(s, contents) && Removes(s, t, key)
    ensures Represents(t, contents - {key})
  {
  }
}
