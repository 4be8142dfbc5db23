/** The sets a loader merges: which ones, and in which order
    (config/loader/memory/memory.go:228-275, 325-357, 469-495). */
module LoaderSets {
  import opened Common
  import opened Reading
  import opened LoaderCore

  /** `sets` are the answers of the sources that could be read, whose indexes are `at`. */
  ghost predicate ReadAt(answers: seq<ReadResult>, at: seq<int>, sets: seq<Option<ChangeSet>>) {
    && Increasing(at) && |at| == |sets|
    && (forall j :: 0 <= j < |at| ==> 0 <= at[j] < |answers| && answers[at[j]] == ReadOk(sets[j]))
    && (forall i :: 0 <= i < |answers| && answers[i].ReadOk? ==> i in at)
  }

  /** Sync merges the answers of all readable sources, each once, in the order of the sources, so
      that a later source is merged over an earlier one. */
  lemma {:induction false} ReadableInOrder(answers: seq<ReadResult>)
    ensures exists at :: ReadAt(answers, at, Readable(answers))
  {
    if answers == [] {
      assert ReadAt(answers, [], Readable(answers));
    } else {
      var n := |answers| - 1;
      var before := answers[..n];
      ReadableInOrder(before);
      var at :| ReadAt(before, at, Readable(before));
      var last := Last(answers);
      ReadAtMore(before, at, Readable(before), last);
      assert answers == before + [last];
      if last.ReadOk? {
        assert ReadAt(answers, at + [n], Readable(answers));
      } else {
        assert ReadAt(answers, at, Readable(answers));
      }
    }
  }

  /** When all could be read it is what each answered, at its index. */
  lemma {:induction false} AllReadable(answers: seq<ReadResult>)
    requires ReadErr !in answers
    ensures |Readable(answers)| == |answers|
    ensures forall i :: 0 <= i < |answers| ==> answers[i] == ReadOk(Readable(answers)[i])
  {
    if answers != [] {
      AllReadable(answers[..|answers| - 1]);
      assert Last(answers) in answers;
    }
  }

  lemma ReadAtMore(answers: seq<ReadResult>, at: seq<int>, sets: seq<Option<ChangeSet>>, last: ReadResult)
    requires ReadAt(answers, at, sets)
    ensures last.ReadErr? ==> ReadAt(answers + [last], at, sets)
    ensures last.ReadOk? ==> ReadAt(answers + [last], at + [|answers|], sets + [last.read])
  {
    var all := answers + [last];
    forall i | 0 <= i < |all| && all[i].ReadOk? ensures i in at || (last.ReadOk? && i == |answers|) {
      if i < |answers| {
        assert answers[i] == all[i];
      }
    }
    forall j | 0 <= j < |at| ensures all[at[j]] == ReadOk(sets[j]) {
    }
    if last.ReadOk? {
      var more := at + [|answers|];
      forall i | 0 <= i < |all| && all[i].ReadOk? ensures i in more {
        assert more[|at|] == |answers|;
        if i in at {
          var j :| 0 <= j < |at| && at[j] == i;
          assert more[j] == i;
        }
      }
    }
  }

  /** When every source answers with the set the loader has of it, Sync does what reload does. */
  lemma SyncIsReload(r: Reader, c: Core, answers: seq<ReadResult>, clock: int)
    requires |answers| == |c.sets| && forall i :: 0 <= i < |answers| ==> answers[i] == ReadOk(c.sets[i])
    ensures Sync(r, c, answers, clock) == Reload(r, c, clock)
  {
    AllReadable(answers);
    assert Readable(answers) == c.sets;
  }

  /** What a new loader has: nothing installed, and one placeholder without data per source. */
  lemma InitialIsEmpty(sources: seq<SourceId>)
    ensures var c := Initial(sources);
            && c.snap.None? && c.vals.None? && c.sources == sources && |c.sets| == |sources|
            && forall i :: 0 <= i < |sources| ==>
                 c.sets[i].Some? && c.sets[i].value.data == "" && c.sets[i].value.source == sources[i]
  {
  }

  // ----- The sets of Load -----

  /** The appends of one `Load`. */
  function AppendAll(c: Core, added: seq<SourceId>, answers: seq<ReadResult>): Core
    requires |answers| == |added|
  {
    if added == [] then c else
    var before := AppendAll(c, added[..|added| - 1], answers[..|added| - 1]);
    match Last(answers)
    case ReadOk(cs) => Append(before, Last(added), cs)
    case ReadErr => before
  }

  /** The sets of the sources that could be read, whose indexes are `at`, came behind those that
      were there, and so did these sources. */
  ghost predicate Appended(sets: seq<Option<ChangeSet>>, sources: seq<SourceId>, sets': seq<Option<ChangeSet>>,
        sources': seq<SourceId>, added: seq<SourceId>, answers: seq<ReadResult>, at: seq<int>)
  {
    && sets <= sets' && ReadAt(answers, at, sets'[|sets|..])
    && sources <= sources' && |sources'| == |sources| + |at|
    && forall j :: 0 <= j < |at| ==> at[j] < |added| && sources'[|sources| + j] == added[at[j]]
  }

  lemma NothingAppended(sets: seq<Option<ChangeSet>>, sources: seq<SourceId>)
    ensures Appended(sets, sources, sets, sources, [], [], [])
  {
    assert sets[|sets|..] == [];
  }

  /** Load leaves the sets and the sources as they were and puts behind them those of the sources
      it could read, in their order. */
  lemma {:induction false} AppendAllInOrder(c: Core, added: seq<SourceId>, answers: seq<ReadResult>)
    requires |answers| == |added|
    ensures var c' := AppendAll(c, added, answers);
            exists at :: Appended(c.sets, c.sources, c'.sets, c'.sources, added, answers, at)
  {
    if added == [] {
      NothingAppended(c.sets, c.sources);
      assert answers == [] && AppendAll(c, added, answers) == c;
    } else {
      var n := |added| - 1;
      AppendAllInOrder(c, added[..n], answers[..n]);
      var before := AppendAll(c, added[..n], answers[..n]);
      var at :| Appended(c.sets, c.sources, before.sets, before.sources, added[..n], answers[..n], at);
      assert answers == answers[..n] + [answers[n]] && added == added[..n] + [added[n]];
      AppendedMore(c, before, added[..n], answers[..n], at, Last(added), Last(answers));
      assert AppendAll(c, added, answers)
          == if Last(answers).ReadErr? then before else Append(before, Last(added), Last(answers).read);
    }
  }

  lemma AppendedMore(c: Core, before: Core, added: seq<SourceId>, answers: seq<ReadResult>, at: seq<int>,
        source: SourceId, last: ReadResult)
    requires |answers| == |added| && Appended(c.sets, c.sources, before.sets, before.sources, added, answers, at)
    ensures var c' := if last.ReadErr? then before else Append(before, source, last.read);
            exists at' :: Appended(c.sets, c.sources, c'.sets, c'.sources, added + [source], answers + [last], at')
  {
    var more := before.sets[|c.sets|..];
    ReadAtMore(answers, at, more, last);
    if last.ReadErr? {
      assert Appended(c.sets, c.sources, before.sets, before.sources, added + [source], answers + [last], at);
    } else {
      var c' := Append(before, source, last.read);
      assert c'.sets[|c.sets|..] == more + [last.read];
      assert Appended(c.sets, c.sources, c'.sets, c'.sources, added + [source], answers + [last], at + [|answers|]);
    }
  }
}
