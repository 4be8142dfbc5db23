/** What a clock that never runs backwards adds to the runs of the loader
    (config/loader/memory/memory.go:455-457). */
module LoaderClock {
  import opened Common
  import opened Reading
  import opened LoaderCore
  import opened LoaderRuns

  /** The clock readings of a run, in order. */
  function Clocks(actions: seq<Action>): seq<int> {
    if actions == [] then [] else
    var rest := Clocks(actions[..|actions| - 1]);
    match Last(actions)
    case DoEvent(_, _, clock) => rest + [clock]
    case DoReload(clock) => rest + [clock]
    case DoSync(_, clock) => rest + [clock]
    case _ => rest
  }

  function Versions(history: seq<Installed>): (vs: seq<int>)
    ensures |vs| == |history|
  {
    seq(|history|, i requires 0 <= i < |history| => history[i].snap.version)
  }

  lemma StepHistory(r: Reader, s: System, a: Action)
    ensures var s' := Step(r, s, a);
            || s'.history == s.history
            || (|s'.history| == |s.history| + 1 && s.history <= s'.history && s'.core.snap.Some?
                && Last(s'.history).snap == s'.core.snap.value
                && Clocks([a]) == [s'.core.snap.value.version])
  {
    assert [a][..0] == [];
  }

  lemma ClocksGrow(actions: seq<Action>)
    requires actions != []
    ensures Clocks(actions) == Clocks(actions[..|actions| - 1]) + Clocks([Last(actions)])
  {
    assert [Last(actions)][..0] == [];
  }

  lemma PrefixOrdered(s: seq<int>, t: seq<int>)
    requires NonDecreasing(s + t)
    ensures NonDecreasing(s)
    ensures t != [] ==> forall x :: x in s ==> x <= Last(t)
  {
    forall i, j | 0 <= i < j < |s| ensures s[i] <= s[j] {
      assert (s + t)[i] <= (s + t)[j];
    }
    if t != [] {
      forall x | x in s ensures x <= Last(t) {
        var i :| 0 <= i < |s| && s[i] == x;
        assert (s + t)[i] <= (s + t)[|s + t| - 1];
      }
    }
  }

  /** The installed versions are clock readings in order, and the current snapshot is the
      newest. */
  ghost predicate FollowsClock(history: seq<Installed>, snap: Option<Snapshot>, clocks: seq<int>) {
    && NonDecreasing(Versions(history))
    && (forall h :: h in history ==> h.snap.version in clocks)
    && (forall h :: h in history ==> snap.Some? && h.snap.version <= snap.value.version)
  }

  lemma HistoryGrows(history: seq<Installed>, before: Option<Snapshot>, clocks: seq<int>, h: Installed)
    requires FollowsClock(history, before, clocks)
    requires forall c :: c in clocks ==> c <= h.snap.version
    ensures FollowsClock(history + [h], Some(h.snap), clocks + [h.snap.version])
  {
    assert Versions(history + [h]) == Versions(history) + [h.snap.version];
    forall i | 0 <= i < |history| ensures Versions(history)[i] <= h.snap.version {
      assert history[i] in history;
    }
  }

  /** With a non-decreasing clock the installed versions are non-decreasing, every one of
      them is a clock reading, and the current snapshot is the newest. */
  lemma {:induction false} HistoryFollowsClock(r: Reader, sources: seq<SourceId>, actions: seq<Action>)
    requires NonDecreasing(Clocks(actions))
    ensures var s := Run(r, Start(sources), actions);
            FollowsClock(s.history, s.core.snap, Clocks(actions))
  {
    if actions != [] {
      var before, a := actions[..|actions| - 1], Last(actions);
      var s, s' := Run(r, Start(sources), before), Run(r, Start(sources), actions);
      ClocksGrow(actions);
      PrefixOrdered(Clocks(before), Clocks([a]));
      HistoryFollowsClock(r, sources, before);
      StepHistory(r, s, a);
      SnapIsLast(r, sources, before);
      SnapIsLast(r, sources, actions);
      if s'.history != s.history {
        assert s'.history == s.history + [Last(s'.history)];
        HistoryGrows(s.history, s.core.snap, Clocks(before), Last(s'.history));
      }
    }
  }

  lemma SnapIsLast(r: Reader, sources: seq<SourceId>, actions: seq<Action>)
    ensures var s := Run(r, Start(sources), actions);
            s.history != [] ==> s.core.snap == Some(Last(s.history).snap)
  {
    RunInv(r, sources, actions);
  }

  /** With a strictly increasing clock no two installed versions are equal. */
  lemma {:induction false} HistoryIncreases(r: Reader, sources: seq<SourceId>, actions: seq<Action>)
    requires Increasing(Clocks(actions))
    ensures Increasing(Versions(Run(r, Start(sources), actions).history))
  {
    if actions != [] {
      var before, a := actions[..|actions| - 1], Last(actions);
      var s, s' := Run(r, Start(sources), before), Run(r, Start(sources), actions);
      ClocksGrow(actions);
      PrefixIncreases(Clocks(before), Clocks([a]));
      HistoryIncreases(r, sources, before);
      HistoryFollowsClock(r, sources, before);
      StepHistory(r, s, a);
      if s'.history != s.history {
        assert s'.history == s.history + [Last(s'.history)];
        VersionsGrow(s.history, Last(s'.history), Clocks(before));
      }
    }
  }

  lemma PrefixIncreases(s: seq<int>, t: seq<int>)
    requires Increasing(s + t)
    ensures Increasing(s) && NonDecreasing(s)
    ensures t != [] ==> forall x :: x in s ==> x < Last(t)
  {
    forall i, j | 0 <= i < j < |s| ensures s[i] < s[j] {
      assert (s + t)[i] < (s + t)[j];
    }
    if t != [] {
      forall x | x in s ensures x < Last(t) {
        var i :| 0 <= i < |s| && s[i] == x;
        assert (s + t)[i] < (s + t)[|s + t| - 1];
      }
    }
  }

  lemma VersionsGrow(history: seq<Installed>, h: Installed, clocks: seq<int>)
    requires Increasing(Versions(history)) && forall o :: o in history ==> o.snap.version in clocks
    requires forall c :: c in clocks ==> c < h.snap.version
    ensures Increasing(Versions(history + [h]))
  {
    assert Versions(history + [h]) == Versions(history) + [h.snap.version];
    forall i | 0 <= i < |history| ensures Versions(history)[i] < h.snap.version {
      assert history[i] in history;
    }
  }
}
