/** Configuration paths (config/config.go:218-225): splitting and joining of strings, and the
    normalization that makes dotted and segmented paths agree. */
module Paths {
  import opened Common

  /** strings.Split with a one-character separator. */
  function Split(s: string, sep: char): (r: seq<string>)
    ensures r != []
  {
    if s == [] then [[]]
    else
      Front(s[0], Split(s[1..], sep), sep)
  }

  /** strings.Join with a one-character separator. */
  function Join(parts: seq<string>, sep: char): string {
    if parts == [] then [] else
    if |parts| == 1 then parts[0] else parts[0] + ([sep] + Join(parts[1..], sep))
  }

  function Normalized(path: seq<string>): seq<string> {
    if path == [] then [] else Normalized(path[..|path| - 1]) + Split(Last(path), '.')
  }

  /** normalizePath. */
  method NormalizePath(path: seq<string>) returns (segments: seq<string>)
    ensures segments == Normalized(path)
  {
    segments := [];
    for i := 0 to |path|
      invariant segments == Normalized(path[..i])
    {
      assert path[..i + 1][..i] == path[..i] && Last(path[..i + 1]) == path[i];
      segments := segments + Split(path[i], '.');
    }
    assert path[..|path|] == path;
  }

  /** One character in front of segments: it starts a new one or extends the first. */
  function Front(c: char, rest: seq<string>, sep: char): seq<string>
    requires rest != []
  {
    if c == sep then [[]] + rest else [[c] + rest[0]] + rest[1..]
  }

  lemma FrontConcat(c: char, a: seq<string>, b: seq<string>, sep: char)
    requires a != []
    ensures Front(c, a + b, sep) == Front(c, a, sep) + b
  {
    assert (a + b)[0] == a[0] && (a + b)[1..] == a[1..] + b;
  }

  lemma {:induction false} SplitConcat(a: string, b: string, sep: char)
    ensures Split(a + ([sep] + b), sep) == Split(a, sep) + Split(b, sep)
  {
    if a == [] {
      assert a + ([sep] + b) == [sep] + b;
    } else {
      var c, u := a[0], a[1..];
      assert a == [c] + u;
      assert a + ([sep] + b) == [c] + (u + ([sep] + b));
      SplitConcat(u, b, sep);
      FrontConcat(c, Split(u, sep), Split(b, sep), sep);
    }
  }

  lemma {:induction false} SplitWhole(s: string, sep: char)
    requires sep !in s
    ensures Split(s, sep) == [s]
  {
    if s != [] {
      SplitWhole(s[1..], sep);
      assert [s[0]] + s[1..] == s;
    }
  }

  lemma {:induction false} SegmentsAreWhole(s: string, sep: char)
    ensures forall i :: 0 <= i < |Split(s, sep)| ==> sep !in Split(s, sep)[i]
  {
    if s != [] {
      SegmentsAreWhole(s[1..], sep);
      assert sep !in Split(s[1..], sep)[0];
    }
  }

  /** Characters are neither lost nor added. */
  lemma {:induction false} JoinSplit(s: string, sep: char)
    ensures Join(Split(s, sep), sep) == s
  {
    if s != [] {
      JoinSplit(s[1..], sep);
      var rest := Split(s[1..], sep);
      if s[0] == sep {
        assert ([[]] + rest)[1..] == rest;
      } else {
        assert ([[s[0]] + rest[0]] + rest[1..])[1..] == rest[1..];
      }
    }
  }

  lemma {:induction false} NormalizedConcat(a: seq<string>, b: seq<string>)
    ensures Normalized(a + b) == Normalized(a) + Normalized(b)
    decreases |b|
  {
    if b == [] {
      assert a + b == a;
    } else {
      assert (a + b)[..|a + b| - 1] == a + b[..|b| - 1];
      NormalizedConcat(a, b[..|b| - 1]);
    }
  }

  /** Normalizing is splitting the dotted form. */
  lemma {:induction false} NormalizedIsSplitOfJoin(path: seq<string>)
    requires path != []
    ensures Normalized(path) == Split(Join(path, '.'), '.')
  {
    if |path| > 1 {
      NormalizedIsSplitOfJoin(path[1..]);
      NormalizedConcat([path[0]], path[1..]);
      assert [path[0]] + path[1..] == path;
      SplitConcat(path[0], Join(path[1..], '.'), '.');
    } else {
      assert path == [path[0]];
    }
  }

  lemma {:induction false} NormalizedWhole(path: seq<string>)
    requires forall i :: 0 <= i < |path| ==> '.' !in path[i]
    ensures Normalized(path) == path
  {
    if path != [] {
      NormalizedWhole(path[..|path| - 1]);
      SplitWhole(Last(path), '.');
    }
  }

  /** "a.b", "c" and "a", "b.c" and "a.b.c" name the same value; normalizing again changes
      nothing. */
  lemma DottedAndSegmentedAgree(path: seq<string>)
    requires path != []
    ensures Normalized([Join(path, '.')]) == Normalized(path)
    ensures Normalized(Normalized(path)) == Normalized(path)
  {
    NormalizedIsSplitOfJoin(path);
    SegmentsAreWhole(Join(path, '.'), '.');
    NormalizedWhole(Normalized(path));
  }

  /** Joining segments with dots and normalizing gives them back exactly when none of them
      contains a dot. */
  lemma JoinedIsSameIff(path: seq<string>)
    requires path != []
    ensures Normalized([Join(path, '.')]) == path <==> forall i :: 0 <= i < |path| ==> '.' !in path[i]
  {
    DottedAndSegmentedAgree(path);
    NormalizedIsSplitOfJoin(path);
    SegmentsAreWhole(Join(path, '.'), '.');
    if forall i :: 0 <= i < |path| ==> '.' !in path[i] {
      NormalizedWhole(path);
    }
  }
}
