/**
 * The operations of src/lib/mod.rs that change or copy stored configs:
 * table initialisation, the three deletes, `add`, `fetch_configs` and the
 * two synchronisations between the store and the files (`write_all`,
 * `read_all`). The file system is a value: `add` and `read_all` receive the
 * text of the files, `write_all` returns what it writes.
 */
module Lib {
  import opened Strings
  import opened Storage
  import opened Entities

  /** `init_db`: creates both tables when they are missing. */
  method InitDb(configs: Table, versions: Table)
    requires configs.Valid() && versions.Valid() && configs != versions
    modifies configs, versions
    ensures configs.Valid() && versions.Valid()
    ensures configs.created && versions.created
    ensures configs.rows == old(configs.rows) && versions.rows == old(versions.rows)
  {
    configs.EnsureTable();
    versions.EnsureTable();
  }

  /** `id = n`, the condition of `delete_by_id`. */
  function ById(id: nat): (cond: Condition)
    ensures forall row :: Fits(CONFIG_COLUMNS, row) ==> (Matches(CONFIG_COLUMNS, cond, row) <==> IdOf(row) == id)
  {
    ConfigColumnsAt();
    Condition("id", Equal, Int(id))
  }

  /** `path = "p"`, the condition of `delete_by_path`. */
  function ByPath(path: string): (cond: Condition)
    ensures forall row :: Fits(CONFIG_COLUMNS, row) ==>
              (Matches(CONFIG_COLUMNS, cond, row) <==> Cell(CONFIG_COLUMNS, row, "path") == Text(path))
  {
    ConfigColumnsAt();
    Condition("path", Equal, Text(path))
  }

  /** `path LIKE '%name'`, the condition of `delete_by_name`: the path ends with the name. */
  function ByName(name: string): (cond: Condition)
    ensures forall row :: Fits(CONFIG_COLUMNS, row) ==>
              (Matches(CONFIG_COLUMNS, cond, row) <==>
                 Cell(CONFIG_COLUMNS, row, "path").Text? && EndsWith(Cell(CONFIG_COLUMNS, row, "path").s, name))
  {
    ConfigColumnsAt();
    Condition("path", LikeSuffix, Text(name))
  }

  /** `delete_by_id` */
  method DeleteById(configs: Table, id: nat) returns (r: Outcome)
    requires configs.Valid() && IsConfigTable(configs)
    modifies configs
    ensures configs.Valid() && configs.created == old(configs.created)
    ensures r.Pass? <==> old(configs.created)
    ensures r.Fail? ==> configs.rows == old(configs.rows)
    ensures r.Pass? ==> configs.rows == Without(CONFIG_COLUMNS, ById(id), old(configs.rows))
    ensures forall row :: row in configs.rows <==> row in old(configs.rows) && (r.Pass? ==> IdOf(row) != id)
  {
    ConfigColumnsAt();
    r := configs.Delete(ById(id));
  }

  /** `delete_by_path` */
  method DeleteByPath(configs: Table, path: string) returns (r: Outcome)
    requires configs.Valid() && IsConfigTable(configs)
    modifies configs
    ensures configs.Valid() && configs.created == old(configs.created)
    ensures r.Pass? <==> old(configs.created)
    ensures r.Fail? ==> configs.rows == old(configs.rows)
    ensures r.Pass? ==> configs.rows == Without(CONFIG_COLUMNS, ByPath(path), old(configs.rows))
    ensures forall row :: row in configs.rows <==>
              row in old(configs.rows) && (r.Pass? ==> Cell(CONFIG_COLUMNS, row, "path") != Text(path))
  {
    ConfigColumnsAt();
    r := configs.Delete(ByPath(path));
  }

  /** `delete_by_name`: every config whose path ends with the name goes. */
  method DeleteByName(configs: Table, name: string) returns (r: Outcome)
    requires configs.Valid() && IsConfigTable(configs)
    modifies configs
    ensures configs.Valid() && configs.created == old(configs.created)
    ensures r.Pass? <==> old(configs.created)
    ensures r.Fail? ==> configs.rows == old(configs.rows)
    ensures r.Pass? ==> configs.rows == Without(CONFIG_COLUMNS, ByName(name), old(configs.rows))
    ensures forall row :: row in configs.rows <==>
              row in old(configs.rows) &&
              (r.Pass? ==> !(Cell(CONFIG_COLUMNS, row, "path").Text? && EndsWith(Cell(CONFIG_COLUMNS, row, "path").s, name)))
  {
    ConfigColumnsAt();
    r := configs.Delete(ByName(name));
  }

  /**
   * `add`: a new config with the next id, the given path, the parsed version
   * id and the file text split into lines.
   */
  method Add(configs: Table, b64: Base64, path: string, fileText: string, version: string) returns (r: Outcome)
    requires configs.Valid() && IsConfigTable(configs)
    modifies configs
    ensures configs.Valid() && configs.created == old(configs.created)
    ensures r.Pass? <==> old(configs.created) && ParseI32(version).Some?
    ensures !old(configs.created) ==> r == Fail(NoSuchTable(CONFIG_TABLE))
    ensures old(configs.created) && ParseI32(version).None? ==> r == Fail(InvalidNumber(version))
    ensures r.Fail? ==> configs.rows == old(configs.rows)
    ensures r.Pass? ==>
              configs.rows == old(configs.rows) +
                [ConfigValues(Config(old(configs.NextId()).value, ParseI32(version).value, path, Split(fileText, NEWLINE)), b64)]
  {
    var next := configs.NextId();
    if next.Failure? {
      return Fail(next.error);
    }
    var versionId := ParseI32(version);
    if versionId.None? {
      return Fail(InvalidNumber(version));
    }
    var config := Config(next.value, versionId.value, path, Split(fileText, NEWLINE));
    r := configs.Create(ConfigValues(config, b64));
  }

  /** The columns `fetch_configs` selects, in its own order. */
  const FETCH_COLUMNS: seq<string> := ["id", "version_id", "path", "data"]

  /**
   * A row of the configs table can be read as a config: integer id and
   * version id, text path and data (positions as in `CONFIG_COLUMNS`).
   */
  predicate ConfigShaped(row: Row)
  {
    |row| == |CONFIG_COLUMNS| && row[0].Int? && row[1].Text? && row[2].Text? && row[3].Int?
  }

  /** The config `fetch_configs` reads from a row: the stored `data` text is split as it is, without decoding. */
  function StoredConfig(row: Row): Config
    requires ConfigShaped(row)
  {
    Config(row[0].i, row[3].i, row[1].s, Split(row[2].s, NEWLINE))
  }

  /** The builder of `fetch_configs`: positions follow `FETCH_COLUMNS`. */
  function FetchBuild(row: Row): (r: Result<Config>)
    ensures r.Success? <==> |row| >= 4 && row[0].Int? && row[1].Int? && row[2].Text? && row[3].Text?
    ensures r.Success? ==> r.value == Config(row[0].i, row[1].i, row[2].s, Split(row[3].s, NEWLINE))
  {
    var data :- GetText(row, 3);
    var id :- GetInt(row, 0);
    var versionId :- GetInt(row, 1);
    var path :- GetText(row, 2);
    Success(Config(id, versionId, path, Split(data, NEWLINE)))
  }

  /** `fetch_configs`: every stored config, in table order, with its `data` split but not decoded. */
  function FetchConfigs(configs: Table): (r: Result<seq<Config>>)
    reads configs
    requires configs.Valid() && IsConfigTable(configs)
    ensures !configs.created ==> r == Failure(NoSuchTable(CONFIG_TABLE))
    ensures r.Success? <==> configs.created && forall k :: 0 <= k < |configs.rows| ==> ConfigShaped(configs.rows[k])
    ensures r.Success? ==> |r.value| == |configs.rows| &&
                           forall k :: 0 <= k < |configs.rows| ==>
                             ConfigShaped(configs.rows[k]) && r.value[k] == StoredConfig(configs.rows[k])
  {
    ConfigColumnsAt();
    assert Known(CONFIG_COLUMNS, FETCH_COLUMNS);
    forall k | 0 <= k < |configs.rows|
      ensures FetchBuild(Project(CONFIG_COLUMNS, FETCH_COLUMNS, configs.rows[k])).Success? <==> ConfigShaped(configs.rows[k])
      ensures ConfigShaped(configs.rows[k]) ==>
                FetchBuild(Project(CONFIG_COLUMNS, FETCH_COLUMNS, configs.rows[k])) == Success(StoredConfig(configs.rows[k]))
    {
      FetchRow(configs.rows[k]);
    }
    configs.Select(FETCH_COLUMNS, FetchBuild)
  }

  /** The cells `fetch_configs` selects from a row, in `FETCH_COLUMNS` order. */
  function FetchCells(row: Row): Row
    requires |row| == |CONFIG_COLUMNS|
  {
    [row[0], row[3], row[1], row[2]]
  }

  /** The projection of one row on `FETCH_COLUMNS`, and what the fetch builder makes of it. */
  lemma FetchRow(row: Row)
    requires |row| == |CONFIG_COLUMNS|
    ensures Known(CONFIG_COLUMNS, FETCH_COLUMNS)
    ensures Project(CONFIG_COLUMNS, FETCH_COLUMNS, row) == FetchCells(row)
    ensures FetchBuild(FetchCells(row)).Success? <==> ConfigShaped(row)
    ensures ConfigShaped(row) ==> FetchBuild(FetchCells(row)) == Success(StoredConfig(row))
  {
    ConfigColumnsAt();
    assert Known(CONFIG_COLUMNS, FETCH_COLUMNS);
  }

  /**
   * A config stored by `create` comes back from `fetch_configs` as the lines
   * of its encoded text, while `builder` gives back the split of its joined
   * lines, which is its own lines exactly when there is one and none holds a
   * newline (`Entities.ConfigRoundTrip`).
   */
  lemma FetchSkipsDecoding(b64: Base64, c: Config)
    requires Lossless(b64)
    ensures ConfigShaped(ConfigValues(c, b64))
    ensures StoredConfig(ConfigValues(c, b64)) == c.(data := Split(b64.encode(Join(c.data, NEWLINE)), NEWLINE))
    ensures ConfigBuild(b64, ConfigValues(c, b64)).value == c.(data := Split(Join(c.data, NEWLINE), NEWLINE))
  {
    ConfigColumnsAt();
  }

  /** A file written by `write_all`. */
  datatype FileWrite = FileWrite(path: string, content: string)

  /** What `write_all` writes for some lines: each line followed by a newline, the last one too. */
  function Render(lines: seq<string>): (text: string)
    ensures |text| >= |lines|
    ensures lines != [] ==> EndsWith(text, lines[|lines| - 1] + "\n")
  {
    if lines == [] then "" else Render(lines[..|lines| - 1]) + lines[|lines| - 1] + "\n"
  }

  /** The rendered text is the joined lines plus one final newline. */
  lemma {:induction false} RenderJoin(lines: seq<string>)
    requires |lines| >= 1
    ensures Render(lines) == Join(lines, NEWLINE) + "\n"
  {
    if |lines| > 1 {
      var init := lines[..|lines| - 1];
      RenderJoin(init);
      JoinSnoc(init, lines[|lines| - 1]);
      assert init + [lines[|lines| - 1]] == lines;
    }
  }

  lemma {:induction false} JoinSnoc(lines: seq<string>, last: string)
    requires |lines| >= 1
    ensures Join(lines + [last], NEWLINE) == Join(lines, NEWLINE) + [NEWLINE] + last
  {
    if |lines| == 1 {
      assert (lines + [last])[1..] == [last];
    } else {
      assert (lines + [last])[1..] == lines[1..] + [last];
      JoinSnoc(lines[1..], last);
    }
  }

  /** Splitting a rendered text gives the lines back plus one empty line at the end. */
  lemma SplitRender(lines: seq<string>)
    requires Unbroken(lines, NEWLINE)
    ensures Split(Render(lines), NEWLINE) == lines + [""]
  {
    if lines != [] {
      RenderJoin(lines);
      SplitTrailingSeparator(Join(lines, NEWLINE), NEWLINE);
      SplitJoin(lines, NEWLINE);
    }
  }

  /** Rendering the lines of a text gives the text with one newline more. */
  lemma RenderSplit(text: string)
    ensures Render(Split(text, NEWLINE)) == text + "\n"
  {
    RenderJoin(Split(text, NEWLINE));
    JoinSplit(text, NEWLINE);
  }

  /** The inner loop of `write_all`: the text written for one config. */
  method RenderLines(lines: seq<string>) returns (content: string)
    ensures content == Render(lines)
  {
    content := "";
    for j := 0 to |lines|
      invariant content == Render(lines[..j])
    {
      assert lines[..j + 1][..j] == lines[..j];
      content := content + lines[j] + "\n";
    }
    assert lines[..|lines|] == lines;
  }

  /** `write_all`: for every config, in table order, its file gets each line followed by a newline. */
  method WriteAll(configs: Table) returns (r: Result<seq<FileWrite>>)
    requires configs.Valid() && IsConfigTable(configs)
    ensures FetchConfigs(configs).Failure? ==> r == Failure(FetchConfigs(configs).error)
    ensures FetchConfigs(configs).Success? ==> r.Success? && |r.value| == |FetchConfigs(configs).value|
    ensures FetchConfigs(configs).Success? ==>
              forall k :: 0 <= k < |r.value| ==>
                var c := FetchConfigs(configs).value[k]; r.value[k] == FileWrite(c.path, Render(c.data))
  {
    var fetched := FetchConfigs(configs);
    if fetched.Failure? {
      return Failure(fetched.error);
    }
    var writes := WriteConfigs(fetched.value);
    r := Success(writes);
  }

  /** The loop of `write_all`: one file per config, holding its rendered lines. */
  method WriteConfigs(cs: seq<Config>) returns (writes: seq<FileWrite>)
    ensures |writes| == |cs|
    ensures forall k :: 0 <= k < |cs| ==> writes[k] == FileWrite(cs[k].path, Render(cs[k].data))
  {
    writes := [];
    for i := 0 to |cs|
      invariant |writes| == i
      invariant forall k :: 0 <= k < i ==> writes[k] == FileWrite(cs[k].path, Render(cs[k].data))
    {
      var content := RenderLines(cs[i].data);
      writes := writes + [FileWrite(cs[i].path, content)];
    }
  }

  /** The file of the row is present. */
  predicate Readable(row: Row, files: map<string, string>)
  {
    |row| == |CONFIG_COLUMNS| && row[1].Text? && row[1].s in files
  }

  /** The row with its `data` cell set to the text of its file, when that file is present. */
  function Refresh(row: Row, files: map<string, string>): Row
  {
    if Readable(row, files)
    then row[2 := Text(files[row[1].s])]
    else row
  }

  /** The rows with the first `n` refreshed from their files. */
  function Refreshed(rows: seq<Row>, files: map<string, string>, n: nat): (r: seq<Row>)
    ensures |r| == |rows|
    ensures forall k :: 0 <= k < |rows| ==> r[k] == if k < n then Refresh(rows[k], files) else rows[k]
  {
    seq(|rows|, k requires 0 <= k < |rows| => if k < n then Refresh(rows[k], files) else rows[k])
  }

  /** How many rows, from the first, have their file present. */
  function ReadablePrefix(rows: seq<Row>, files: map<string, string>): (n: nat)
    ensures n <= |rows|
    ensures forall k :: 0 <= k < n ==> Readable(rows[k], files)
    ensures n < |rows| ==> !Readable(rows[n], files)
  {
    if rows == [] || !Readable(rows[0], files) then 0
    else 1 + ReadablePrefix(rows[1..], files)
  }

  /**
   * `read_all`: in table order, the `data` column of each config becomes the
   * raw text of its file; nothing else changes. A missing file stops the pass,
   * and the rows before it stay refreshed.
   */
  method ReadAll(configs: Table, files: map<string, string>) returns (r: Outcome)
    requires configs.Valid() && IsConfigTable(configs)
    modifies configs
    ensures configs.Valid() && configs.created == old(configs.created)
    ensures old(FetchConfigs(configs)).Failure? ==>
              r == Fail(old(FetchConfigs(configs)).error) && configs.rows == old(configs.rows)
    ensures old(FetchConfigs(configs)).Success? ==>
              configs.rows == Refreshed(old(configs.rows), files, ReadablePrefix(old(configs.rows), files))
    ensures old(FetchConfigs(configs)).Success? ==>
              (r.Pass? <==> ReadablePrefix(old(configs.rows), files) == |old(configs.rows)|)
  {
    ConfigColumnsAt();
    var fetched := FetchConfigs(configs);
    if fetched.Failure? {
      return Fail(fetched.error);
    }
    r := RefreshAll(configs, fetched.value, files);
  }

  /** The loop of `read_all` over the fetched configs `cs`, one per row. */
  method RefreshAll(configs: Table, cs: seq<Config>, files: map<string, string>) returns (r: Outcome)
    requires configs.Valid() && IsConfigTable(configs) && configs.created
    requires |cs| == |configs.rows|
    requires forall k :: 0 <= k < |cs| ==> ConfigShaped(configs.rows[k]) && cs[k] == StoredConfig(configs.rows[k])
    modifies configs
    ensures configs.Valid() && configs.created
    ensures configs.rows == Refreshed(old(configs.rows), files, ReadablePrefix(old(configs.rows), files))
    ensures r.Pass? <==> ReadablePrefix(old(configs.rows), files) == |old(configs.rows)|
  {
    ConfigColumnsAt();
    ghost var rows0 := configs.rows;
    ghost var n := ReadablePrefix(rows0, files);
    var i := 0;
    while i < |cs|
      invariant 0 <= i <= |cs| == |rows0|
      invariant i <= n
      invariant AllFit(CONFIG_COLUMNS, rows0) && UniqueIds(rows0)
      invariant configs.Valid() && configs.created
      invariant configs.rows == Refreshed(rows0, files, i)
    {
      var path := cs[i].path;
      assert Readable(rows0[i], files) <==> path in files;
      if path !in files {
        return Fail(FileNotFound(path));
      }
      assert i != n;
      RefreshConfig(configs, rows0, files, i, cs[i]);
      i := i + 1;
    }
    r := Pass;
  }

  /** One step of `read_all`: `update` of the `data` column of the `i`-th config, by its id. */
  method RefreshConfig(configs: Table, ghost rows: seq<Row>, files: map<string, string>, i: nat, c: Config)
    requires configs.Valid() && IsConfigTable(configs) && configs.created
    requires AllFit(CONFIG_COLUMNS, rows) && UniqueIds(rows)
    requires i < |rows| && configs.rows == Refreshed(rows, files, i)
    requires ConfigShaped(rows[i]) && c == StoredConfig(rows[i]) && c.path in files
    modifies configs
    ensures configs.Valid() && configs.created
    ensures configs.rows == Refreshed(rows, files, i + 1)
  {
    ConfigColumnsAt();
    RefreshStep(rows, files, i);
    assert c.path == rows[i][1].s;
    var u := configs.Update(c.id, "data", Text(files[c.path]));
  }

  /** Setting the data (column 2) of the `i`-th row by its id refreshes exactly that row. */
  lemma RefreshStep(rows: seq<Row>, files: map<string, string>, i: nat)
    requires AllFit(CONFIG_COLUMNS, rows) && UniqueIds(rows)
    requires i < |rows| && Readable(rows[i], files)
    ensures AllFit(CONFIG_COLUMNS, Refreshed(rows, files, i))
    ensures Refreshed(rows, files, i + 1) ==
            SetColumn(Refreshed(rows, files, i), IdOf(rows[i]), 2, Text(files[rows[i][1].s]))
  {
    ConfigColumnsAt();
    var before := Refreshed(rows, files, i);
    forall k | 0 <= k < |rows|
      ensures Fits(CONFIG_COLUMNS, before[k])
    {
      RefreshRow(rows, files, i, k);
    }
    var after := Refreshed(rows, files, i + 1);
    var updated := SetColumn(before, IdOf(rows[i]), 2, Text(files[rows[i][1].s]));
    forall k | 0 <= k < |rows|
      ensures after[k] == updated[k]
    {
      RefreshRow(rows, files, i, k);
    }
  }

  /** One row of `RefreshStep`: only the row whose id is the `i`-th's changes. */
  lemma RefreshRow(rows: seq<Row>, files: map<string, string>, i: nat, k: nat)
    requires AllFit(CONFIG_COLUMNS, rows) && UniqueIds(rows)
    requires i < |rows| && k < |rows| && Readable(rows[i], files)
    ensures Fits(CONFIG_COLUMNS, Refreshed(rows, files, i)[k])
    ensures IdOf(Refreshed(rows, files, i)[k]) == IdOf(rows[k])
    ensures Refreshed(rows, files, i + 1)[k] ==
            if IdOf(rows[k]) == IdOf(rows[i]) then Refreshed(rows, files, i)[k][2 := Text(files[rows[i][1].s])]
            else Refreshed(rows, files, i)[k]
  {
    ConfigColumnsAt();
    if k != i {
      assert IdOf(rows[k]) != IdOf(rows[i]);
    }
  }
}
