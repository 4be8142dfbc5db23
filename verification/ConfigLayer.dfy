/** The configuration object above the loader (config/default.go): its critical sections,
    its mutable objects, and its user-facing watchers. */
module ConfigLayer {
  import opened Common
  import opened Reading

  /** The fields of `config` its mutex guards. */
  datatype Conf = Conf(snap: Option<Snapshot>, vals: Option<Json>)

  /** The critical section of `run`: older snapshots and unparsable ones change nothing. */
  function RunInstall(r: Reader, c: Conf, snap: Snapshot): Conf {
    if c.snap.Some? && snap.version <= c.snap.value.version then c else
    match r.values(snap.changeSet)
    case None => c
    case Some(v) => Conf(Some(snap), Some(v))
  }

  /** The last lines of `Load` and `Sync`: the snapshot is replaced unconditionally, the
      values only when it parses. */
  function Replace(r: Reader, c: Conf, snap: Snapshot): Conf {
    match r.values(snap.changeSet)
    case None => c.(snap := Some(snap))
    case Some(v) => Conf(Some(snap), Some(v))
  }

  class Config {
    const reader: Reader
    var snap: Option<Snapshot>
    var vals: Option<Json>

    ghost function State(): Conf
      reads this
    {
      Conf(snap, vals)
    }

    constructor (reader: Reader)
      ensures this.reader == reader && State() == Conf(None, None)
    {
      this.reader, snap, vals := reader, None, None;
    }

    /** One turn of `run` with the snapshot the loader's root watcher returned. */
    method RunStep(s: Snapshot) returns (installed: bool)
      modifies this
      ensures State() == RunInstall(reader, old(State()), s)
      ensures installed <==> State() != old(State())
      ensures installed <==>
        (old(snap).None? || s.version > old(snap).value.version) && reader.values(s.changeSet).Some?
      ensures installed ==> snap == Some(s) && vals == reader.values(s.changeSet)
    {
      if snap.Some? && s.version <= snap.value.version {
        return false;
      }
      var parsed := reader.values(s.changeSet);
      installed := parsed.Some?;
      if parsed.Some? {
        snap := Some(s);
        vals := parsed;
      }
    }

    /** `Load` and `Sync` once the loader has answered with a snapshot. */
    method Install(s: Snapshot) returns (ok: bool)
      modifies this
      ensures State() == Replace(reader, old(State()), s)
      ensures ok == reader.values(s.changeSet).Some?
      ensures snap == Some(s) && vals == if ok then reader.values(s.changeSet) else old(vals)
    {
      snap := Some(s);
      var parsed := reader.values(s.changeSet);
      ok := parsed.Some?;
      if ok {
        vals := parsed;
      }
    }
  }

  // ----- User-facing watchers -----

  /** What a user's Next returns for a loader snapshot: its whole value, or an error. */
  function Answer(r: Reader, s: Snapshot): Option<Json> {
    match r.values(s.changeSet)
    case None => None
    case Some(v) => r.get(v, [])
  }

  /** The snapshots `watcher.Next` does not skip: those whose bytes are not the baseline's. */
  function Passing(baseline: string, delivered: seq<Snapshot>): seq<Snapshot> {
    Filter(delivered, (s: Snapshot) => s.changeSet.data != baseline)
  }

  class Watcher {
    const reader: Reader
    const value: Json

    constructor (reader: Reader, value: Json)
      ensures this.reader == reader && this.value == value
    {
      this.reader, this.value := reader, value;
    }

    /** `Next`, `delivered` being what the loader watcher's Next returns from now on: it
        consumes up to the first item that differs from the registration value and answers
        with it; it is still waiting when there is none. */
    method Next(delivered: seq<Snapshot>) returns (waiting: bool, answer: Option<Json>, used: nat)
      ensures used <= |delivered|
      ensures waiting ==> used == |delivered| && Passing(reader.bytes(value), delivered) == []
      ensures !waiting ==> 0 < used && Passing(reader.bytes(value), delivered[..used]) == [delivered[used - 1]]
                           && answer == Answer(reader, delivered[used - 1])
      ensures !waiting ==> delivered[used - 1].changeSet.data != reader.bytes(value)
      ensures forall i :: 0 <= i < used && (waiting || i < used - 1) ==>
        delivered[i].changeSet.data == reader.bytes(value)
    {
      answer := None;
      used := 0;
      assert delivered[..0] == [];
      while used < |delivered|
        invariant used <= |delivered|
        invariant Passing(reader.bytes(value), delivered[..used]) == []
        invariant forall i :: 0 <= i < used ==> delivered[i].changeSet.data == reader.bytes(value)
      {
        var s := delivered[used];
        used := used + 1;
        assert delivered[..used][..used - 1] == delivered[..used - 1];
        if reader.bytes(value) != s.changeSet.data {
          var v := reader.values(s.changeSet);
          if v.Some? {
            answer := reader.get(v.value, []);
          }
          return false, answer, used;
        }
      }
      assert delivered[..|delivered|] == delivered;
      waiting := true;
    }

    /** A user who keeps calling `Next` is answered once per item that differs from the
        registration value, in order, and never otherwise. */
    method NextAll(delivered: seq<Snapshot>) returns (answers: seq<Option<Json>>)
      ensures var passing := Passing(reader.bytes(value), delivered);
              && |answers| == |passing|
              && forall i :: 0 <= i < |passing| ==> answers[i] == Answer(reader, passing[i])
    {
      answers := [];
      var from := 0;
      var waiting := false;
      while !waiting
        invariant from <= |delivered|
        invariant waiting ==> Passing(reader.bytes(value), delivered[from..]) == []
        invariant |answers| == |Passing(reader.bytes(value), delivered[..from])|
        invariant forall i :: 0 <= i < |answers| ==>
          answers[i] == Answer(reader, Passing(reader.bytes(value), delivered[..from])[i])
        decreases |delivered| - from, !waiting
      {
        var answer, used;
        waiting, answer, used := Next(delivered[from..]);
        if !waiting {
          PassingConcat(reader.bytes(value), delivered[..from], delivered[from..from + used]);
          assert delivered[from..][..used] == delivered[from..from + used];
          assert delivered[..from] + delivered[from..from + used] == delivered[..from + used];
          answers := answers + [answer];
          from := from + used;
        }
      }
      PassingConcat(reader.bytes(value), delivered[..from], delivered[from..]);
      assert delivered[..from] + delivered[from..] == delivered;
    }
  }

  lemma {:induction false} PassingConcat(baseline: string, a: seq<Snapshot>, b: seq<Snapshot>)
    ensures Passing(baseline, a + b) == Passing(baseline, a) + Passing(baseline, b)
  {
    FilterConcat(a, b, (s: Snapshot) => s.changeSet.data != baseline);
  }
}
