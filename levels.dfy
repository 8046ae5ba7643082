/** The level filter a hook reports to logrus: which levels it wants to be fired for. */
module LevelFilter {
  import opened Logrus

  /** The elements of `levels` that are at least as severe as `threshold`, in their order. */
  function AtOrAbove(levels: seq<Level>, threshold: Level): (r: seq<Level>)
    ensures |r| <= |levels|
    ensures forall x :: x in r <==> x in levels && x <= threshold
  {
    if levels == [] then []
    else
      var last := levels[|levels| - 1];
      AtOrAbove(levels[..|levels| - 1], threshold) + if last <= threshold then [last] else []
  }

  ghost predicate Increasing(s: seq<Level>)
  {
    forall i, j :: 0 <= i < j < |s| ==> s[i] < s[j]
  }

  /** Filtering keeps the order: an increasing sequence filters to an increasing sequence. */
  lemma {:induction false} AtOrAboveKeepsOrder(levels: seq<Level>, threshold: Level)
    requires Increasing(levels)
    ensures Increasing(AtOrAbove(levels, threshold))
  {
    if levels != [] {
      var init := levels[..|levels| - 1];
      assert Increasing(init);
      AtOrAboveKeepsOrder(init, threshold);
      var r := AtOrAbove(init, threshold);
      var last := levels[|levels| - 1];
      forall x | x in r ensures x < last {
        var i :| 0 <= i < |init| && init[i] == x;
        assert levels[i] == x;
      }
      var r' := AtOrAbove(levels, threshold);
      assert r' == r + if last <= threshold then [last] else [];
      forall i, j | 0 <= i < j < |r'| ensures r'[i] < r'[j] {
        if j < |r| {
          assert r'[i] == r[i] && r'[j] == r[j];
        } else {
          assert r'[i] == r[i] && r[i] in r;
        }
      }
    }
  }

  /** When the levels up to n pass the threshold and the rest do not, filtering keeps exactly the first n. */
  lemma {:induction false} AtOrAbovePrefix(levels: seq<Level>, threshold: Level, n: nat)
    requires n <= |levels|
    requires forall i :: 0 <= i < n ==> levels[i] <= threshold
    requires forall i :: n <= i < |levels| ==> levels[i] > threshold
    ensures AtOrAbove(levels, threshold) == levels[..n]
  {
    if levels != [] {
      var init := levels[..|levels| - 1];
      if n == |levels| {
        AtOrAbovePrefix(init, threshold, n - 1);
        assert levels == init + [levels[|levels| - 1]];
      } else {
        AtOrAbovePrefix(init, threshold, n);
        assert init[..n] == levels[..n];
      }
    }
  }

  /**
   * With threshold t, the levels Panic..t of AllLevels remain, in AllLevels order;
   * a threshold at Trace or above keeps them all.
   */
  lemma AtOrAboveAllLevels(threshold: Level)
    ensures AtOrAbove(AllLevels, threshold)
            == AllLevels[..if threshold < TraceLevel then threshold as int + 1 else |AllLevels|]
  {
    AtOrAbovePrefix(AllLevels, threshold, if threshold < TraceLevel then threshold as int + 1 else |AllLevels|);
  }

  /** The default threshold, Debug, lets every level but Trace through; Warn lets Panic..Warn through. */
  lemma DefaultAndWarnLevels()
    ensures AtOrAbove(AllLevels, DebugLevel) == [PanicLevel, FatalLevel, ErrorLevel, WarnLevel, InfoLevel, DebugLevel]
    ensures AtOrAbove(AllLevels, WarnLevel) == [PanicLevel, FatalLevel, ErrorLevel, WarnLevel]
  {
    AtOrAboveAllLevels(DebugLevel);
    AtOrAboveAllLevels(WarnLevel);
  }
}
