/** The error-code generator (errorx/generator/generator.go): validation of a batch of
    specifications, the full codes, and the names the generated package declares. */
module ErrorCodes {
  import opened Common
  import V = Versions

  datatype Definition = Definition(code: int, name: string, httpStatus: int)

  datatype File = File(appCode: int, bizCode: int, errorCode: seq<Definition>)

  datatype InputFile = InputFile(path: string, fileName: string, spec: File)

  // ----- One specification -----

  predicate Upper(c: char) {
    'A' <= c <= 'Z'
  }

  predicate NameChar(c: char) {
    Upper(c) || 'a' <= c <= 'z' || V.IsDigit(c) || c == '_'
  }

  /** goExportedIdentPattern. */
  predicate Exported(name: string) {
    name != [] && Upper(name[0]) && forall i :: 0 <= i < |name| ==> NameChar(name[i])
  }

  /** A name the generator accepts as an error name is not empty, starts with one of A to Z, and has
      only A to Z, a to z, 0 to 9 and the underscore: these are bytes of ASCII. */
  lemma ExportedIff(name: string)
    ensures Exported(name) <==>
      && name != [] && 65 <= name[0] as int <= 90
      && forall i :: 0 <= i < |name| ==>
           var b := name[i] as int; 65 <= b <= 90 || 97 <= b <= 122 || 48 <= b <= 57 || b == 95
  {
  }

  datatype Fault = BadName | BadCode | BadStatus | SameName | SameCode

  datatype SpecError = BadAppCode | BadBizCode | NoErrorCode | BadDefinition(index: nat, fault: Fault)

  /** The faults of a definition by itself, in the order they are looked for. */
  function OwnFault(d: Definition): Option<Fault> {
    if !Exported(d.name) then Some(BadName)
    else if d.code < 1 || d.code > 9999 then Some(BadCode)
    else if d.httpStatus != 0 && (d.httpStatus < 100 || d.httpStatus > 599) then Some(BadStatus)
    else None
  }

  ghost predicate Acceptable(d: Definition) {
    Exported(d.name) && 1 <= d.code <= 9999 && (d.httpStatus == 0 || 100 <= d.httpStatus <= 599)
  }

  function Names(defs: seq<Definition>): (names: seq<string>)
    ensures |names| == |defs|
  {
    seq(|defs|, i requires 0 <= i < |defs| => defs[i].name)
  }

  function Codes(defs: seq<Definition>): (codes: seq<int>)
    ensures |codes| == |defs|
  {
    seq(|defs|, i requires 0 <= i < |defs| => defs[i].code)
  }

  ghost predicate ValidDefinitions(defs: seq<Definition>) {
    (forall i :: 0 <= i < |defs| ==> Acceptable(defs[i])) && Distinct(Names(defs)) && Distinct(Codes(defs))
  }

  ghost predicate ValidSpec(spec: File) {
    1 <= spec.appCode <= 9 && 1 <= spec.bizCode <= 9999 && spec.errorCode != [] && ValidDefinitions(spec.errorCode)
  }

  /** The definition at `i` is the first not acceptable after those before it, for this reason. */
  ghost predicate FirstFault(defs: seq<Definition>, i: nat, fault: Fault) {
    && i < |defs|
    && ValidDefinitions(defs[..i])
    && match fault
       case BadName => !Exported(defs[i].name)
       case BadCode => Exported(defs[i].name) && !(1 <= defs[i].code <= 9999)
       case BadStatus => Exported(defs[i].name) && 1 <= defs[i].code <= 9999 && !Acceptable(defs[i])
       case SameName => Acceptable(defs[i]) && defs[i].name in Names(defs[..i])
       case SameCode =>
         Acceptable(defs[i]) && defs[i].name !in Names(defs[..i]) && defs[i].code in Codes(defs[..i])
  }

  /** validateSpec. */
  method ValidateSpec(spec: File) returns (err: Option<SpecError>)
    ensures err == None <==> ValidSpec(spec)
    ensures err == Some(BadAppCode) <==> !(1 <= spec.appCode <= 9)
    ensures err == Some(BadBizCode) <==> 1 <= spec.appCode <= 9 && !(1 <= spec.bizCode <= 9999)
    ensures err == Some(NoErrorCode) <==> 1 <= spec.appCode <= 9 && 1 <= spec.bizCode <= 9999 && spec.errorCode == []
    ensures err.Some? && err.value.BadDefinition? ==> FirstFault(spec.errorCode, err.value.index, err.value.fault)
  {
    if spec.appCode < 1 || spec.appCode > 9 {
      return Some(BadAppCode);
    }
    if spec.bizCode < 1 || spec.bizCode > 9999 {
      return Some(BadBizCode);
    }
    if |spec.errorCode| == 0 {
      return Some(NoErrorCode);
    }
    var defs := spec.errorCode;
    var seenNames: set<string>, seenCodes: set<int> := {}, {};
    for i := 0 to |defs|
      invariant ValidDefinitions(defs[..i])
      invariant forall n :: n in seenNames <==> n in Names(defs[..i])
      invariant forall c :: c in seenCodes <==> c in Codes(defs[..i])
    {
      var d := defs[i];
      AddDefinition(defs[..i], d);
      FaultMeansInvalid(defs, i);
      assert defs[..i + 1] == defs[..i] + [d];
      var fault := OwnFault(d);
      if fault.Some? {
        return Some(BadDefinition(i, fault.value));
      }
      if d.name in seenNames {
        return Some(BadDefinition(i, SameName));
      }
      if d.code in seenCodes {
        return Some(BadDefinition(i, SameCode));
      }
      seenNames, seenCodes := seenNames + {d.name}, seenCodes + {d.code};
    }
    assert defs[..|defs|] == defs;
    return None;
  }

  lemma DistinctAdd<T>(s: seq<T>, t: T)
    ensures Distinct(s + [t]) <==> Distinct(s) && t !in s
  {
    if Distinct(s + [t]) {
      forall i | 0 <= i < |s| ensures s[i] != t {
        assert (s + [t])[i] != (s + [t])[|s|];
      }
      forall i, j | 0 <= i < j < |s| ensures s[i] != s[j] {
        assert (s + [t])[i] != (s + [t])[j];
      }
    }
  }

  lemma DistinctPrefix<T>(s: seq<T>, t: seq<T>)
    requires Distinct(s + t)
    ensures Distinct(s)
  {
    forall i, j | 0 <= i < j < |s| ensures s[i] != s[j] {
      assert (s + t)[i] != (s + t)[j];
    }
  }

  lemma AddDefinition(defs: seq<Definition>, d: Definition)
    ensures Names(defs + [d]) == Names(defs) + [d.name] && Codes(defs + [d]) == Codes(defs) + [d.code]
    ensures ValidDefinitions(defs + [d]) <==>
      ValidDefinitions(defs) && Acceptable(d) && d.name !in Names(defs) && d.code !in Codes(defs)
  {
    var all := defs + [d];
    assert Names(all) == Names(defs) + [d.name] && Codes(all) == Codes(defs) + [d.code];
    DistinctAdd(Names(defs), d.name);
    DistinctAdd(Codes(defs), d.code);
    assert all[|defs|] == d;
    assert forall i :: 0 <= i < |defs| ==> all[i] == defs[i];
  }

  lemma FaultMeansInvalid(defs: seq<Definition>, i: nat)
    requires i < |defs|
    ensures ValidDefinitions(defs) ==> ValidDefinitions(defs[..i + 1])
  {
    if ValidDefinitions(defs) {
      var rest := defs[i + 1..];
      assert Names(defs) == Names(defs[..i + 1]) + Names(rest) && Codes(defs) == Codes(defs[..i + 1]) + Codes(rest);
      DistinctPrefix(Names(defs[..i + 1]), Names(rest));
      DistinctPrefix(Codes(defs[..i + 1]), Codes(rest));
    }
  }

  // ----- Full codes -----

  function Compose(appCode: int, bizCode: int, subCode: int): int {
    appCode * 100000000 + bizCode * 10000 + subCode
  }

  datatype Parts = Parts(appCode: int, bizCode: int, subCode: int)

  function Decode(full: int): Parts {
    Parts(full / 100000000, full / 10000 % 10000, full % 10000)
  }

  /** A full code decodes to its three parts, prints as nine digits and fits int32. */
  lemma FullCodeDecodes(app: int, biz: int, sub: int)
    requires 1 <= app <= 9 && 1 <= biz <= 9999 && 1 <= sub <= 9999
    ensures var full := Compose(app, biz, sub);
            && Decode(full) == Parts(app, biz, sub) && |V.Format(full)| == 9 && 0 < full <= 0x7FFF_FFFF
            && full / 100000000 == app && full / 10000 % 10000 == biz && full % 10000 == sub
  {
    var full := Compose(app, biz, sub);
    assert full == (app * 10000 + biz) * 10000 + sub;
    assert full / 10000 == app * 10000 + biz;
    assert full / 100000000 == app;
    assert V.Pow10(4) == 10000 && V.Pow10(5) == 100000;
    assert V.Pow10(8) == 100000000 && V.Pow10(9) == 1000000000;
    V.DigitCount(full, 9);
  }

  // ----- A batch of files -----

  function FileNames(files: seq<InputFile>): (names: seq<string>)
    ensures |names| == |files|
  {
    seq(|files|, i requires 0 <= i < |files| => files[i].fileName)
  }

  function AllNames(files: seq<InputFile>): seq<string> {
    if files == [] then [] else AllNames(files[..|files| - 1]) + Names(Last(files).spec.errorCode)
  }

  function FullCodes(spec: File, defs: seq<Definition>): (codes: seq<int>)
    ensures |codes| == |defs|
  {
    seq(|defs|, i requires 0 <= i < |defs| => Compose(spec.appCode, spec.bizCode, defs[i].code))
  }

  function AllCodes(files: seq<InputFile>): seq<int> {
    if files == [] then [] else AllCodes(files[..|files| - 1]) + FullCodes(Last(files).spec, Last(files).spec.errorCode)
  }

  ghost predicate ValidBatch(files: seq<InputFile>) {
    Distinct(FileNames(files)) && Distinct(AllNames(files)) && Distinct(AllCodes(files))
  }

  /** What is repeated in the first files is repeated in all. */
  lemma {:induction false} AllPrefix(files: seq<InputFile>, n: nat)
    requires n <= |files|
    ensures Distinct(FileNames(files)) ==> Distinct(FileNames(files[..n]))
    ensures Distinct(AllNames(files)) ==> Distinct(AllNames(files[..n]))
    ensures Distinct(AllCodes(files)) ==> Distinct(AllCodes(files[..n]))
    decreases |files| - n
  {
    if n < |files| {
      AllPrefix(files, n + 1);
      OneMoreNames(files, n);
    } else {
      assert files[..n] == files;
    }
  }

  lemma OneMoreNames(files: seq<InputFile>, n: nat)
    requires n < |files|
    ensures Distinct(FileNames(files[..n + 1])) ==> Distinct(FileNames(files[..n]))
    ensures Distinct(AllNames(files[..n + 1])) ==> Distinct(AllNames(files[..n]))
    ensures Distinct(AllCodes(files[..n + 1])) ==> Distinct(AllCodes(files[..n]))
  {
    var more := files[..n + 1];
    assert more[..n] == files[..n] && Last(more) == files[n];
    assert FileNames(more) == FileNames(files[..n]) + [files[n].fileName];
    if Distinct(FileNames(more)) {
      DistinctPrefix(FileNames(files[..n]), [files[n].fileName]);
    }
    if Distinct(AllNames(more)) {
      DistinctPrefix(AllNames(files[..n]), Names(files[n].spec.errorCode));
    }
    if Distinct(AllCodes(more)) {
      DistinctPrefix(AllCodes(files[..n]), FullCodes(files[n].spec, files[n].spec.errorCode));
    }
  }

  /** What one more file adds, and that a batch is valid only if all its prefixes are. */
  lemma OneMoreFile(files: seq<InputFile>, i: nat)
    requires i < |files|
    ensures var before, more, file := files[..i], files[..i + 1], files[i];
            && AllNames(more) == AllNames(before) + Names(file.spec.errorCode)
            && AllCodes(more) == AllCodes(before) + FullCodes(file.spec, file.spec.errorCode)
            && (Distinct(FileNames(more)) <==> Distinct(FileNames(before)) && file.fileName !in FileNames(before))
    ensures ValidBatch(files) ==> ValidBatch(files[..i + 1])
  {
    var before, more, file := files[..i], files[..i + 1], files[i];
    assert more[..i] == before && Last(more) == file;
    assert FileNames(more) == FileNames(before) + [file.fileName];
    DistinctAdd(FileNames(before), file.fileName);
    AllPrefix(files, i + 1);
  }

  datatype Conflict = SameOutput | SameErrorName | SameFullCode

  /** The inner loop of validateInputFiles, over the definitions of one file. The maps of places
      seen are kept as the sets of their keys. */
  method SeeDefinitions(spec: File, seenNames: set<string>, seenCodes: set<int>,
        ghost names: seq<string>, ghost codes: seq<int>)
      returns (err: Option<Conflict>, names': set<string>, codes': set<int>)
    requires Distinct(names) && Distinct(codes)
    requires (forall n :: n in seenNames <==> n in names) && (forall c :: c in seenCodes <==> c in codes)
    ensures var allNames, allCodes := names + Names(spec.errorCode), codes + FullCodes(spec, spec.errorCode);
            && (err == None <==> Distinct(allNames) && Distinct(allCodes))
            && (err == Some(SameErrorName) ==> !Distinct(allNames))
            && (err == Some(SameFullCode) ==> !Distinct(allCodes))
            && err != Some(SameOutput)
            && (err == None ==> forall n :: n in names' <==> n in allNames)
            && (err == None ==> forall c :: c in codes' <==> c in allCodes)
  {
    names', codes' := seenNames, seenCodes;
    var defs := spec.errorCode;
    ghost var ns, cs := names, codes;
    for i := 0 to |defs|
      invariant ns == names + Names(defs[..i]) && cs == codes + FullCodes(spec, defs[..i])
      invariant Distinct(ns) && Distinct(cs)
      invariant (forall n :: n in names' <==> n in ns) && (forall c :: c in codes' <==> c in cs)
    {
      var fullCode := Compose(spec.appCode, spec.bizCode, defs[i].code);
      assert names + Names(defs[..i + 1]) == ns + [defs[i].name];
      assert codes + FullCodes(spec, defs[..i + 1]) == cs + [fullCode];
      DistinctAdd(ns, defs[i].name);
      DistinctAdd(cs, fullCode);
      if defs[i].name in names' {
        NotDistinct(ns, defs[i].name, names + Names(defs));
        return Some(SameErrorName), names', codes';
      }
      if fullCode in codes' {
        NotDistinct(cs, fullCode, codes + FullCodes(spec, defs));
        return Some(SameFullCode), names', codes';
      }
      ns, cs := ns + [defs[i].name], cs + [fullCode];
      names', codes' := names' + {defs[i].name}, codes' + {fullCode};
    }
    assert defs[..|defs|] == defs;
    err := None;
  }

  /** A repetition in a prefix is one in the whole. */
  lemma NotDistinct<T>(s: seq<T>, t: T, whole: seq<T>)
    requires t in s && s + [t] <= whole
    ensures !Distinct(whole)
  {
    var i :| 0 <= i < |s| && s[i] == t;
    assert whole[i] == (s + [t])[i] && whole[|s|] == (s + [t])[|s|];
  }

  /** validateInputFiles. */
  method ValidateInputFiles(files: seq<InputFile>) returns (err: Option<Conflict>)
    ensures err == None <==> ValidBatch(files)
    ensures err == Some(SameOutput) ==> !Distinct(FileNames(files))
    ensures err == Some(SameErrorName) ==> !Distinct(AllNames(files))
    ensures err == Some(SameFullCode) ==> !Distinct(AllCodes(files))
  {
    var seenFiles: set<string>, seenNames: set<string>, seenCodes: set<int> := {}, {}, {};
    for i := 0 to |files|
      invariant ValidBatch(files[..i])
      invariant forall n :: n in seenFiles <==> exists j :: 0 <= j < i && n == files[j].fileName + ".go"
      invariant forall n :: n in seenNames <==> n in AllNames(files[..i])
      invariant forall c :: c in seenCodes <==> c in AllCodes(files[..i])
    {
      var file := files[i];
      ghost var before := files[..i];
      OneMoreFile(files, i);
      AllPrefix(files, i + 1);
      var outputName := file.fileName + ".go";
      SuffixIsInjective(files, i);
      if outputName in seenFiles {
        return Some(SameOutput);
      }
      seenFiles := seenFiles + {outputName};
      var conflict, names, codes := SeeDefinitions(file.spec, seenNames, seenCodes, AllNames(before), AllCodes(before));
      if conflict.Some? {
        return conflict;
      }
      seenNames, seenCodes := names, codes;
    }
    assert files[..|files|] == files;
    return None;
  }

  lemma SuffixIsInjective(files: seq<InputFile>, i: nat)
    requires i < |files|
    ensures files[i].fileName in FileNames(files[..i]) <==>
      exists j :: 0 <= j < i && files[i].fileName + ".go" == files[j].fileName + ".go"
  {
    if j :| 0 <= j < i && files[i].fileName + ".go" == files[j].fileName + ".go" {
      var a, b := files[i].fileName, files[j].fileName;
      assert |a + ".go"| == |a| + 3 && |b + ".go"| == |b| + 3;
      assert (a + ".go")[..|a|] == a && (b + ".go")[..|b|] == b;
      assert FileNames(files[..i])[j] == b;
    }
    if files[i].fileName in FileNames(files[..i]) {
      var j :| 0 <= j < i && FileNames(files[..i])[j] == files[i].fileName;
      assert files[i].fileName + ".go" == files[j].fileName + ".go";
    }
  }

  // ----- Generated names -----

  /** What is put before an error name: the definition itself, then writeFunctions. */
  function Prefix(kind: nat): (p: string)
    requires kind < 4
  {
    match kind
    case 0 => ""
    case 1 => "New"
    case 2 => "Wrap"
    case _ => "Is"
  }

  /** The names declared for one definition. */
  function NamesFor(name: string): (all: seq<string>)
    ensures |all| == 4
  {
    [Prefix(0) + name, Prefix(1) + name, Prefix(2) + name, Prefix(3) + name]
  }

  /** The top-level names declared for these definitions, in order. */
  function Declared(names: seq<string>): (all: seq<string>)
    ensures |all| == 4 * |names|
  {
    if names == [] then [] else Declared(names[..|names| - 1]) + NamesFor(Last(names))
  }

  /** The declarations buildGoCode writes: writeDefinition and writeFunctions for each. */
  method BuildGoCode(spec: File) returns (declared: seq<string>)
    ensures declared == Declared(Names(spec.errorCode))
    ensures |declared| == 4 * |spec.errorCode|
    ensures forall i :: 0 <= i < |spec.errorCode| ==>
      var name := spec.errorCode[i].name;
      declared[4 * i..4 * i + 4] == [name, "New" + name, "Wrap" + name, "Is" + name]
  {
    declared := [];
    for i := 0 to |spec.errorCode|
      invariant declared == Declared(Names(spec.errorCode[..i]))
    {
      var name := spec.errorCode[i].name;
      assert Names(spec.errorCode[..i + 1])[..i] == Names(spec.errorCode[..i]);
      assert Prefix(0) + name == name;
      declared := declared + ([name] + ["New" + name, "Wrap" + name, "Is" + name]);
    }
    assert spec.errorCode[..|spec.errorCode|] == spec.errorCode;
    forall i | 0 <= i < |spec.errorCode|
      ensures var name := spec.errorCode[i].name;
              declared[4 * i..4 * i + 4] == [name, "New" + name, "Wrap" + name, "Is" + name]
    {
      DeclaredFour(Names(spec.errorCode), i);
      NamesForAre(spec.errorCode[i].name);
    }
  }

  lemma DeclaredFour(names: seq<string>, d: nat)
    requires d < |names|
    ensures 4 * d + 4 <= |Declared(names)| && Declared(names)[4 * d..4 * d + 4] == NamesFor(names[d])
  {
    DeclaredAt(names, d, 0);
    DeclaredAt(names, d, 1);
    DeclaredAt(names, d, 2);
    DeclaredAt(names, d, 3);
    FourAt(Declared(names), 4 * d, NamesFor(names[d]));
  }

  lemma FourAt(all: seq<string>, k: nat, four: seq<string>)
    requires k + 4 <= |all| && |four| == 4
    requires all[k] == four[0] && all[k + 1] == four[1] && all[k + 2] == four[2] && all[k + 3] == four[3]
    ensures all[k..k + 4] == four
  {
  }

  lemma NamesForAre(name: string)
    ensures NamesFor(name) == [name, "New" + name, "Wrap" + name, "Is" + name]
  {
    assert Prefix(0) + name == name;
  }

  lemma {:induction false} DeclaredConcat(a: seq<string>, b: seq<string>)
    ensures Declared(a + b) == Declared(a) + Declared(b)
    decreases |b|
  {
    if b == [] {
      assert a + b == a;
    } else {
      assert (a + b)[..|a + b| - 1] == a + b[..|b| - 1];
      DeclaredConcat(a, b[..|b| - 1]);
    }
  }

  /** Some name is New, Wrap or Is followed by a name. */
  ghost predicate Collides(names: seq<string>) {
    exists i, j | 0 <= i < |names| && 0 <= j < |names| ::
      names[i] == "New" + names[j] || names[i] == "Wrap" + names[j] || names[i] == "Is" + names[j]
  }

  lemma {:induction false} DeclaredAt(names: seq<string>, d: nat, kind: nat)
    requires d < |names| && kind < 4
    ensures 4 * d + kind < |Declared(names)| && Declared(names)[4 * d + kind] == Prefix(kind) + names[d]
  {
    var n := |names| - 1;
    if d < n {
      DeclaredAt(names[..n], d, kind);
    } else {
      assert Declared(names)[4 * n + kind] == NamesFor(Last(names))[kind];
    }
  }

  lemma PrefixesDiffer(k: nat, l: nat, a: string, b: string)
    requires 0 < k < 4 && 0 < l < 4 && k != l
    ensures Prefix(k) + a != Prefix(l) + b
  {
    assert (Prefix(k) + a)[0] == Prefix(k)[0] && (Prefix(l) + b)[0] == Prefix(l)[0];
  }

  lemma SamePrefix(p: string, a: string, b: string)
    requires p + a == p + b
    ensures a == b
  {
    assert (p + a)[|p|..] == a && (p + b)[|p|..] == b;
  }

  lemma DeclaredDiffer(names: seq<string>, d: nat, k: nat, e: nat, l: nat)
    requires Distinct(names) && !Collides(names)
    requires d < |names| && e < |names| && k < 4 && l < 4 && (d != e || k != l)
    ensures Prefix(k) + names[d] != Prefix(l) + names[e]
  {
    assert Prefix(0) + names[d] == names[d] && Prefix(0) + names[e] == names[e];
    if k == l {
      if Prefix(k) + names[d] == Prefix(k) + names[e] {
        SamePrefix(Prefix(k), names[d], names[e]);
      }
    } else if k != 0 && l != 0 {
      PrefixesDiffer(k, l, names[d], names[e]);
    }
  }

  lemma DefinitionAt(names: seq<string>, d: nat)
    requires d < |names|
    ensures 4 * d < |Declared(names)| && Declared(names)[4 * d] == names[d]
  {
    DeclaredAt(names, d, 0);
    assert "" + names[d] == names[d];
  }

  lemma DeclaredPairDiffers(names: seq<string>, i: nat, j: nat)
    requires Distinct(names) && !Collides(names) && i < j < |Declared(names)|
    ensures Declared(names)[i] != Declared(names)[j]
  {
    DeclaredAt(names, i / 4, i % 4);
    DeclaredAt(names, j / 4, j % 4);
    DeclaredDiffer(names, i / 4, i % 4, j / 4, j % 4);
  }

  /** The generated package declares every name once exactly when no error name is New, Wrap or
      Is followed by another error name. */
  lemma {:induction false} DeclaredDistinctIff(names: seq<string>)
    requires Distinct(names)
    ensures Distinct(Declared(names)) <==> !Collides(names)
  {
    if Collides(names) {
      var i, j :| 0 <= i < |names| && 0 <= j < |names|
        && (names[i] == "New" + names[j] || names[i] == "Wrap" + names[j] || names[i] == "Is" + names[j]);
      var kind := if names[i] == Prefix(1) + names[j] then 1 else if names[i] == Prefix(2) + names[j] then 2 else 3;
      DefinitionAt(names, i);
      DeclaredAt(names, j, kind);
    } else {
      forall i, j | 0 <= i < j < |Declared(names)| ensures Declared(names)[i] != Declared(names)[j] {
        DeclaredPairDiffers(names, i, j);
      }
    }
  }

  /** Such names are accepted: A and NewA both declare NewA. */
  lemma AcceptedNamesCollide(defs: seq<Definition>)
    requires defs == [Definition(1, "A", 0), Definition(2, "NewA", 0)]
    ensures ValidDefinitions(defs) && !Distinct(Declared(Names(defs)))
  {
    assert Exported("A") && Exported("NewA");
    var names := Names(defs);
    assert names[1] == Prefix(1) + names[0];
    DeclaredDistinctIff(names);
  }

  // ----- An accepted batch -----

  ghost predicate Accepted(files: seq<InputFile>) {
    (forall i :: 0 <= i < |files| ==> ValidSpec(files[i].spec)) && ValidBatch(files)
  }

  datatype Config = Config(inputs: seq<string>, packageName: string, errorxImport: string)

  const DEFAULT_PACKAGE := "errcode"
  const DEFAULT_IMPORT := "github.com/fino-io/finokit/errorx"

  /** strings.TrimSpace(s) == "", for ASCII. */
  predicate Blank(s: string) {
    forall i :: 0 <= i < |s| ==> s[i] in " \t\n\r" || s[i] as int == 11 || s[i] as int == 12
  }

  /** goPackagePattern. */
  predicate PackageName(name: string) {
    name != [] && !V.IsDigit(name[0]) && forall i :: 0 <= i < |name| ==> NameChar(name[i])
  }

  /** A package name is not empty, does not start with a digit, and has only A to Z, a to z, 0 to 9
      and the underscore. */
  lemma PackageNameIff(name: string)
    ensures PackageName(name) <==>
      && name != [] && !(48 <= name[0] as int <= 57)
      && forall i :: 0 <= i < |name| ==>
           var b := name[i] as int; 65 <= b <= 90 || 97 <= b <= 122 || 48 <= b <= 57 || b == 95
  {
  }

  function WithDefaults(cfg: Config): Config {
    Config(cfg.inputs,
           if Blank(cfg.packageName) then DEFAULT_PACKAGE else cfg.packageName,
           if Blank(cfg.errorxImport) then DEFAULT_IMPORT else cfg.errorxImport)
  }

  predicate ValidConfig(cfg: Config) {
    |cfg.inputs| > 0 && PackageName(cfg.packageName) && !Blank(cfg.errorxImport)
  }

  /** Generate, up to the writing of files. `loaded` is what collecting and reading the inputs
      gives: None when a path cannot be collected, an element None when a file cannot be read or
      parsed. Every specification is validated as it is loaded, then all together. */
  method Generate(config: Config, loaded: Option<seq<Option<InputFile>>>) returns (result: Option<seq<InputFile>>)
    ensures result.Some? <==>
      && |config.inputs| > 0 && (Blank(config.packageName) || PackageName(config.packageName))
      && loaded.Some? && None !in loaded.value && Accepted(Files(loaded.value))
    ensures result.Some? ==> loaded.Some? && result.value == Files(loaded.value)
  {
    var cfg := WithDefaults(config);
    DefaultsAreValid(config);
    if !ValidConfig(cfg) || loaded.None? {
      return None;
    }
    var files: seq<InputFile> := [];
    for i := 0 to |loaded.value|
      invariant None !in loaded.value[..i] && files == Files(loaded.value[..i])
      invariant forall j :: 0 <= j < i ==> ValidSpec(files[j].spec)
    {
      ghost var all := Files(loaded.value);
      assert loaded.value[..i + 1] == loaded.value[..i] + [loaded.value[i]];
      if loaded.value[i].None? {
        return None;
      }
      var file := loaded.value[i].value;
      var err := ValidateSpec(file.spec);
      if err.Some? {
        assert None !in loaded.value ==> all[i] == file;
        return None;
      }
      files := files + [file];
    }
    assert loaded.value[..|loaded.value|] == loaded.value;
    var err := ValidateInputFiles(files);
    if err.Some? {
      return None;
    }
    result := Some(files);
  }

  /** Blank is what has only ASCII white space: tab, line feed, vertical tab, form feed, carriage
      return and space. */
  lemma BlankIff(s: string)
    ensures Blank(s) <==> forall i :: 0 <= i < |s| ==> 9 <= s[i] as int <= 13 || s[i] as int == 32
  {
    forall i | 0 <= i < |s|
      ensures s[i] in " \t\n\r" || s[i] as int == 11 || s[i] as int == 12
              <==> 9 <= s[i] as int <= 13 || s[i] as int == 32
    {
    }
  }

  lemma DefaultsAreValid(cfg: Config)
    ensures ValidConfig(WithDefaults(cfg)) <==>
      |cfg.inputs| > 0 && (Blank(cfg.packageName) || PackageName(cfg.packageName))
  {
    assert DEFAULT_IMPORT[0] == 'g';
    assert PackageName(DEFAULT_PACKAGE);
  }

  /** The files that could be loaded, in order. */
  function Files(loaded: seq<Option<InputFile>>): (files: seq<InputFile>)
    ensures None !in loaded ==> |files| == |loaded| && forall i :: 0 <= i < |loaded| ==> loaded[i] == Some(files[i])
  {
    if loaded == [] then [] else
    assert loaded == loaded[..|loaded| - 1] + [Last(loaded)];
    var before := Files(loaded[..|loaded| - 1]);
    if Last(loaded).Some? then before + [Last(loaded).value] else before
  }

  /** What all the files of the package declare: for each file what BuildGoCode writes. */
  function AllDeclared(files: seq<InputFile>): seq<string> {
    if files == [] then [] else AllDeclared(files[..|files| - 1]) + Declared(Names(Last(files).spec.errorCode))
  }

  lemma {:induction false} AllDeclaredIsDeclared(files: seq<InputFile>)
    ensures AllDeclared(files) == Declared(AllNames(files))
  {
    if files != [] {
      AllDeclaredIsDeclared(files[..|files| - 1]);
      DeclaredConcat(AllNames(files[..|files| - 1]), Names(Last(files).spec.errorCode));
    }
  }

  /** The files of an accepted batch together declare every name once exactly when no error name
      in any of them is New, Wrap or Is followed by an error name in any of them. */
  lemma {:induction false} PackageDistinctIff(files: seq<InputFile>)
    requires Accepted(files)
    ensures Distinct(AllDeclared(files)) <==> !Collides(AllNames(files))
  {
    AllDeclaredIsDeclared(files);
    DeclaredDistinctIff(AllNames(files));
  }

  function PartsOf(spec: File): (parts: seq<Parts>)
    ensures |parts| == |spec.errorCode|
  {
    seq(|spec.errorCode|, j requires 0 <= j < |spec.errorCode| =>
      Parts(spec.appCode, spec.bizCode, spec.errorCode[j].code))
  }

  function AllParts(files: seq<InputFile>): seq<Parts> {
    if files == [] then [] else AllParts(files[..|files| - 1]) + PartsOf(Last(files).spec)
  }

  lemma {:induction false} CodesDecode(files: seq<InputFile>)
    requires forall i :: 0 <= i < |files| ==> ValidSpec(files[i].spec)
    ensures |AllCodes(files)| == |AllParts(files)|
    ensures forall k :: 0 <= k < |AllCodes(files)| ==> AllParts(files)[k] == Decode(AllCodes(files)[k])
  {
    if files != [] {
      var spec := Last(files).spec;
      CodesDecode(files[..|files| - 1]);
      forall j | 0 <= j < |spec.errorCode| ensures PartsOf(spec)[j] == Decode(FullCodes(spec, spec.errorCode)[j]) {
        assert Acceptable(spec.errorCode[j]);
        FullCodeDecodes(spec.appCode, spec.bizCode, spec.errorCode[j].code);
      }
    }
  }

  /** No two full codes clash exactly when no two definitions share application code, business
      code and sub-code: composing never makes different definitions equal. */
  lemma {:induction false} CodesDistinctIff(files: seq<InputFile>)
    requires forall i :: 0 <= i < |files| ==> ValidSpec(files[i].spec)
    ensures Distinct(AllCodes(files)) <==> Distinct(AllParts(files))
  {
    CodesDecode(files);
  }
}
