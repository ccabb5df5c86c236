/**
 * The two entities and their row encoding (src/lib/entities.rs:6-20,
 * 164-240): table names, column order, `values` (an entity to the cells of
 * an `INSERT`) and `builder` (a selected row back to an entity).
 */
module Entities {
  import opened Wrappers
  import opened Strings
  import opened Storage

  /** A tracked file of one version: its path and its lines. */
  datatype Config = Config(id: int, versionId: int, path: string, data: seq<string>)

  /** A named profile that groups configs. */
  datatype Version = Version(id: int, name: string)

  /**
   * The base64 crate's `encode` and `decode`. The crate is a foreign library,
   * so whoever uses the model supplies the two functions.
   */
  datatype Base64 = Base64(encode: string -> string, decode: string -> string)

  /** Decoding gives back what was encoded: all the model takes for granted about the crate. */
  ghost predicate Lossless(b64: Base64)
  {
    forall s :: b64.decode(b64.encode(s)) == s
  }

  const CONFIG_TABLE: string := "configs"
  const CONFIG_COLUMNS: seq<string> := ["id", "path", "data", "version_id"]
  const VERSION_TABLE: string := "versions"
  const VERSION_COLUMNS: seq<string> := ["id", "name"]

  /** The separator of the stored lines. */
  const NEWLINE: char := '\n'

  predicate IsConfigTable(t: Table)
  {
    t.name == CONFIG_TABLE && t.columns == CONFIG_COLUMNS
  }

  predicate IsVersionTable(t: Table)
  {
    t.name == VERSION_TABLE && t.columns == VERSION_COLUMNS
  }

  lemma ConfigColumnsAt()
    ensures Distinct(CONFIG_COLUMNS)
    ensures IndexOf(CONFIG_COLUMNS, "id") == Some(0)
    ensures IndexOf(CONFIG_COLUMNS, "path") == Some(1)
    ensures IndexOf(CONFIG_COLUMNS, "data") == Some(2)
    ensures IndexOf(CONFIG_COLUMNS, "version_id") == Some(3)
  {
    IndexOfDistinct(CONFIG_COLUMNS, 0);
    IndexOfDistinct(CONFIG_COLUMNS, 1);
    IndexOfDistinct(CONFIG_COLUMNS, 2);
    IndexOfDistinct(CONFIG_COLUMNS, 3);
  }

  lemma VersionColumnsAt()
    ensures Distinct(VERSION_COLUMNS)
    ensures IndexOf(VERSION_COLUMNS, "id") == Some(0)
    ensures IndexOf(VERSION_COLUMNS, "name") == Some(1)
  {
    IndexOfDistinct(VERSION_COLUMNS, 0);
    IndexOfDistinct(VERSION_COLUMNS, 1);
  }

  /** `row.get::<i32>(k)` */
  function GetInt(row: Row, k: nat): (r: Result<int>)
    ensures r.Success? <==> k < |row| && row[k].Int?
    ensures r.Success? ==> row[k] == Int(r.value)
    ensures k >= |row| ==> r == Failure(ColumnIndex(k))
  {
    if k >= |row| then Failure(ColumnIndex(k))
    else if row[k].Int? then Success(row[k].i)
    else Failure(ColumnType(k))
  }

  /** `row.get::<String>(k)` */
  function GetText(row: Row, k: nat): (r: Result<string>)
    ensures r.Success? <==> k < |row| && row[k].Text?
    ensures r.Success? ==> row[k] == Text(r.value)
    ensures k >= |row| ==> r == Failure(ColumnIndex(k))
  {
    if k >= |row| then Failure(ColumnIndex(k))
    else if row[k].Text? then Success(row[k].s)
    else Failure(ColumnType(k))
  }

  /** `Config::values`: one cell per column of `CONFIG_COLUMNS`; the lines are joined and encoded. */
  function ConfigValues(c: Config, b64: Base64): (row: Row)
    ensures Fits(CONFIG_COLUMNS, row)
    ensures Cell(CONFIG_COLUMNS, row, "id") == Int(c.id)
    ensures Cell(CONFIG_COLUMNS, row, "path") == Text(c.path)
    ensures Cell(CONFIG_COLUMNS, row, "data") == Text(b64.encode(Join(c.data, NEWLINE)))
    ensures Cell(CONFIG_COLUMNS, row, "version_id") == Int(c.versionId)
  {
    ConfigColumnsAt();
    [Int(c.id), Text(c.path), Text(b64.encode(Join(c.data, NEWLINE))), Int(c.versionId)]
  }

  /** `decode_lines`: the decoded text of the `data` column. */
  function DecodeLines(b64: Base64, encoded: string): (text: string)
    ensures Lossless(b64) ==> forall s :: encoded == b64.encode(s) ==> text == s
  {
    b64.decode(encoded)
  }

  /** `Config::builder`: reads the cells in column order, decodes `data` and splits it into lines. */
  function ConfigBuild(b64: Base64, row: Row): (r: Result<Config>)
    ensures |row| < |CONFIG_COLUMNS| ==> r.Failure?
    ensures |row| == |CONFIG_COLUMNS| ==>
              (r.Success? <==> (Cell(CONFIG_COLUMNS, row, "id").Int? && Cell(CONFIG_COLUMNS, row, "path").Text? &&
                                Cell(CONFIG_COLUMNS, row, "data").Text? && Cell(CONFIG_COLUMNS, row, "version_id").Int?))
    ensures |row| == |CONFIG_COLUMNS| && r.Success? ==>
              r.value == Config(Cell(CONFIG_COLUMNS, row, "id").i, Cell(CONFIG_COLUMNS, row, "version_id").i,
                                Cell(CONFIG_COLUMNS, row, "path").s,
                                Split(DecodeLines(b64, Cell(CONFIG_COLUMNS, row, "data").s), NEWLINE))
  {
    ConfigColumnsAt();
    var data :- GetText(row, 2);
    var id :- GetInt(row, 0);
    var path :- GetText(row, 1);
    var versionId :- GetInt(row, 3);
    Success(Config(id, versionId, path, Split(DecodeLines(b64, data), NEWLINE)))
  }

  /**
   * Building a config from its own values keeps its id, path and version,
   * and gives back its lines exactly when it has at least one and none of
   * them holds a newline.
   */
  lemma ConfigRoundTrip(b64: Base64, c: Config)
    requires Lossless(b64)
    ensures ConfigBuild(b64, ConfigValues(c, b64)).Success?
    ensures var built := ConfigBuild(b64, ConfigValues(c, b64)).value;
            built.id == c.id && built.path == c.path && built.versionId == c.versionId
    ensures ConfigBuild(b64, ConfigValues(c, b64)) == Success(c) <==> |c.data| >= 1 && Unbroken(c.data, NEWLINE)
  {
    ConfigColumnsAt();
    SplitJoin(c.data, NEWLINE);
  }

  /** An empty config does not survive the round trip: it comes back with one empty line. */
  lemma EmptyConfigGainsLine(b64: Base64, id: int, versionId: int, path: string)
    requires Lossless(b64)
    ensures ConfigBuild(b64, ConfigValues(Config(id, versionId, path, []), b64)) == Success(Config(id, versionId, path, [""]))
  {
    ConfigColumnsAt();
  }

  /** `Version::values`: one cell per column of `VERSION_COLUMNS`. */
  function VersionValues(v: Version): (row: Row)
    ensures Fits(VERSION_COLUMNS, row)
    ensures Cell(VERSION_COLUMNS, row, "id") == Int(v.id)
    ensures Cell(VERSION_COLUMNS, row, "name") == Text(v.name)
    ensures VersionBuild(row) == Success(v)
  {
    VersionColumnsAt();
    [Int(v.id), Text(v.name)]
  }

  /** `Version::builder`: reads the cells in column order. */
  function VersionBuild(row: Row): (r: Result<Version>)
    ensures |row| < |VERSION_COLUMNS| ==> r.Failure?
    ensures |row| == |VERSION_COLUMNS| ==>
              (r.Success? <==> Cell(VERSION_COLUMNS, row, "id").Int? && Cell(VERSION_COLUMNS, row, "name").Text?)
    ensures |row| == |VERSION_COLUMNS| && r.Success? ==>
              r.value == Version(Cell(VERSION_COLUMNS, row, "id").i, Cell(VERSION_COLUMNS, row, "name").s)
  {
    VersionColumnsAt();
    var id :- GetInt(row, 0);
    var name :- GetText(row, 1);
    Success(Version(id, name))
  }
}
