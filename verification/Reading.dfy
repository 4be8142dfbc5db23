/** The values the configuration layers exchange (config/source/source.go,
    config/reader/reader.go, config/loader/loader.go). */
module Reading {
  import opened Common

  type Path = seq<string>

  /** A JSON tree. Go strings are byte strings: one `char` stands for one byte.
      A number keeps its literal text, as json.Number does. */
  datatype Json =
    | Null
    | Bool(b: bool)
    | Num(text: string)
    | Str(s: string)
    | Arr(items: seq<Json>)
    | Obj(fields: map<string, Json>)

  /** source.ChangeSet without its timestamp, which nothing reads. */
  datatype ChangeSet = ChangeSet(data: string, checksum: string, format: string, source: string)

  /** loader.Snapshot. `version` is the clock reading genVer prints. */
  datatype Snapshot = Snapshot(changeSet: ChangeSet, version: int)

  /** The reader.Reader a loader is built with. Merge and Values may fail (None);
      `get` is Values.Get, None standing for a nil value or an error. */
  datatype Reader = Reader(
    merge: seq<Option<ChangeSet>> -> Option<ChangeSet>,
    values: ChangeSet -> Option<Json>,
    get: (Json, Path) -> Option<Json>,
    bytes: Json -> string,
    sum: string -> string,
    name: string)

  /** What source.Source.Read returns: a change set (possibly nil) or an error. */
  datatype ReadResult = ReadOk(read: Option<ChangeSet>) | ReadErr
}
