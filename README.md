# rusty-configs, modelled in Dafny

rusty-configs keeps copies of configuration files in an SQLite database.
A config has:
- an id;
- the path of its file;
- the lines of the file;
- the id of the version it belongs to.

A version is an id with a name. This project models two layers:
- The record mapper of `src/lib/entities.rs`: the `Entity` trait and its two implementations, `Config` and `Version`.
- The operations built on it in `src/lib/mod.rs`: creating the tables, adding and deleting configs, copying the stored data to the files and back, and listing configs grouped by version.

The database is a pair of in-memory tables. Each table is a `Storage.Table` object:
- its name and column names are constants;
- whether the table has been created, and its rows, are fields that the operations update.

A row is a sequence of cells, laid out in the table's column order. A cell holds an integer or a text. Every SQL statement the source builds becomes the operation on the row sequence it denotes:
- `CREATE TABLE IF NOT EXISTS`;
- `INSERT`, which is refused on a duplicate `id PRIMARY KEY`;
- `DELETE ... WHERE`, `UPDATE ... WHERE id=`;
- `SELECT` with a column list and with `WHERE`;
- the `ORDER BY id DESC LIMIT 0, 1` of `next_id`.

A failing statement, a panicking `expect`/`unwrap` and an `Err` return all become a failure value, a `Result` or an `Outcome`, naming what went wrong.

base64 is a parameter. A `Base64` value carries an `encode` and a `decode` function. `Lossless(b64)` is the hypothesis that decoding an encoded text gives it back. The round-trip lemmas assume only that.

Files are values:
- `add` receives the text of the file it stores;
- `read_all` receives a map from paths to file texts;
- `write_all` returns the list of files it writes with their contents.

The model follows the code as written. Three facts about it, each proved:
- `create` stores a config's lines base64-encoded (`Entities.ConfigValues`).
- `fetch_configs` splits the stored text without decoding it (`Lib.FetchSkipsDecoding`).
- `read_all` stores raw file text (`Lib.ReadAll`).

`write_all` ends every line with a newline, the last one too. When no line holds a newline, as for lines that come from a split, a written file therefore splits back into its lines plus one empty line (`Lib.SplitRender`). Rendering the lines of a text gives the text plus one newline (`Lib.RenderSplit`).

Modules:
- `Wrappers`: `Option`.
- `Strings`: Rust's `split`, `join`, `parse::<i32>` and `str::len`, with their laws.
- `Storage`: the generic part of the `Entity` trait, as the `Table` class.
- `Entities`: `Config`, `Version`, and their `values` and `builder`.
- `Lib`: initialisation, deletes, `add`, `fetch_configs`, `write_all`, `read_all`.
- `Listing`: `version_by_id`, `tree_item`, `list_configs`.

## Model

| member | source | states |
|---|---|---|
| Strings.Split | src/lib/mod.rs:64-67 | splitting on a separator gives at least one piece; no piece holds the separator |
| Strings.SplitJoin | src/lib/entities.rs:186-201 | splitting the joined lines gives them back exactly when there is at least one line and no line holds the separator |
| Strings.JoinSplit | src/lib/entities.rs:186-201 | joining the pieces of a split gives the text back |
| Strings.SplitAt | src/lib/mod.rs:64-67 | when the first separator of a text is at position `i`, splitting gives the text before `i` followed by the pieces of the text after it |
| Strings.SplitTrailingSeparator | src/lib/mod.rs:64-67 | a text ending in the separator splits into the pieces of the text before it plus one empty piece |
| Strings.Join | src/lib/entities.rs:186 | `join("\n")`: the first line starts the text and a separator follows it when there are more; `SplitJoin` and `JoinSplit` pin it down |
| Strings.ParseI32 | src/lib/mod.rs:62 | `parse::<i32>` accepts only a text that starts with a sign or a digit, has at least one digit and digits after the first character, and whose value is in the 32-bit range |
| Strings.ParseSigned | src/lib/mod.rs:62 | every text of an optional `+` or `-` followed by one or more digits (leading zeros allowed) parses to its signed decimal value when that fits in 32 bits, and fails otherwise |
| Strings.ParseUnsigned | src/lib/mod.rs:62 | a non-empty digit string with no sign parses to its decimal value when that is at most the 32-bit maximum, and fails otherwise |
| Strings.ParseAfterSign | src/lib/mod.rs:62 | a `+` or `-` followed by a non-empty digit string parses to the value, negated after `-`, when that is in the 32-bit range, and fails otherwise |
| Strings.ParseShow | src/lib/mod.rs:62 | every 32-bit integer written in decimal parses back to itself |
| Strings.Utf8Length | src/lib/mod.rs:156 | the byte length of a string is between its character count and four times it |
| Strings.AsciiLength | src/lib/mod.rs:156 | for ASCII text the byte length equals the character count |
| Strings.Spaces | src/lib/mod.rs:131 | `" ".repeat(n)` is n spaces |
| Storage.Matches | src/lib/entities.rs:108-119 | the `WHERE {parameter}{operator}{value}` test: equality of the named cell with the value, or `LIKE '%value'` as a suffix test on texts; no row matches a condition on an unknown column |
| Storage.Where | src/lib/entities.rs:44-58 | a row is selected exactly when it is among the rows and the condition holds of it |
| Storage.Without | src/lib/entities.rs:108-120 | a row survives a delete exactly when it is among the rows and the condition does not hold of it |
| Storage.WhereWithoutPartition | src/lib/entities.rs:108-120 | every row goes to exactly one side of a condition: the selected and the surviving rows together are the rows, as a multiset |
| Storage.WithoutAppend | src/lib/entities.rs:108-120 | deleting keeps the survivors in their order: the delete distributes over concatenation |
| Storage.WithoutNothing | src/lib/entities.rs:108-120 | when the condition holds of no row, the delete removes nothing |
| Storage.WithoutKeepsValid | src/lib/entities.rs:108-120 | the survivors of a delete still fit the columns and keep unique ids |
| Storage.SetColumn | src/lib/entities.rs:123-135 | each row with the id gets the new cell in the column; every other row and cell is unchanged |
| Storage.BuildAll | src/lib/entities.rs:156-160 | building succeeds exactly when every row builds, gives one entity per row in order, or the error of a row that fails |
| Storage.Project | src/lib/entities.rs:151-161 | the projected row holds the named cells in query order |
| Storage.ProjectAll | src/lib/entities.rs:36-41 | selecting all columns in their own order gives the row back |
| Storage.MaxId | src/lib/entities.rs:74-88 | the highest id is one of the rows' ids and no id exceeds it |
| Storage.Table.constructor | src/lib/entities.rs:138-148 | a store in which the table does not exist yet: no rows |
| Storage.Table.EnsureTable | src/lib/entities.rs:138-148 | the table exists afterwards and its rows are unchanged, so a second call changes nothing |
| Storage.Table.NextId | src/lib/entities.rs:74-88 | 1 for an empty table, and otherwise one more than an id in the table; greater than every stored id; a missing table is an error |
| Storage.Table.Create | src/lib/entities.rs:94-105 | appends exactly the row when its id is new; a taken id or a missing table fails and changes nothing |
| Storage.Table.Delete | src/lib/entities.rs:107-120 | the rows become exactly the rows the condition does not hold of, in order; matching nothing succeeds; an unknown column or a missing table fails and changes nothing |
| Storage.Table.Update | src/lib/entities.rs:122-135 | the column of the rows with the id is set and nothing else changes; an absent id changes nothing; an unknown column or a missing table fails |
| Storage.Table.Select | src/lib/entities.rs:150-161 | one entity per row in table order, built from the queried columns; an unknown column, a missing table or a row the builder rejects fails |
| Storage.Table.All | src/lib/entities.rs:35-41 | one entity per row in table order, built from all columns |
| Storage.Table.SelectWhere | src/lib/entities.rs:43-58 | succeeds exactly when the table exists, the column is known and every row the condition holds of builds; then one entity per such row, in order; an unknown column or a missing table fails |
| Storage.Table.Find | src/lib/entities.rs:60-72 | the entity built from the row with the id, or an error when no row has it |
| Entities.ConfigColumnsAt | src/lib/entities.rs:177-179 | the config columns are distinct and sit at positions 0 id, 1 path, 2 data, 3 version_id |
| Entities.VersionColumnsAt | src/lib/entities.rs:213-215 | the version columns are distinct and sit at positions 0 id, 1 name |
| Entities.GetInt | src/lib/entities.rs:195 | `row.get::<i32>(k)` succeeds exactly on an integer cell at a valid index and returns its value |
| Entities.GetText | src/lib/entities.rs:193 | `row.get::<String>(k)` succeeds exactly on a text cell at a valid index and returns its text |
| Entities.ConfigValues | src/lib/entities.rs:177-189 | one cell per column of `id, path, data, version_id`, in that order; data is the encoding of the lines joined by newlines |
| Entities.DecodeLines | src/lib/entities.rs:235-240 | under a lossless codec, decoding the encoding of a text gives that text |
| Entities.ConfigBuild | src/lib/entities.rs:190-205 | reads position 0 as id, 1 as path, 2 as data and 3 as version id; succeeds exactly when they have those types; data is decoded and split on newlines |
| Entities.ConfigRoundTrip | src/lib/entities.rs:181-205 | building a config from its own values keeps id, path and version; the whole config comes back exactly when it has a line and no line holds a newline |
| Entities.EmptyConfigGainsLine | src/lib/entities.rs:181-205 | a config without lines comes back with one empty line |
| Entities.VersionValues | src/lib/entities.rs:213-223 | one cell per column of `id, name`, in that order, which the builder turns back into the same version |
| Entities.VersionBuild | src/lib/entities.rs:224-232 | reads position 0 as id and 1 as name; succeeds exactly when they have those types |
| Lib.InitDb | src/lib/mod.rs:25-31 | both tables exist afterwards and their rows are unchanged |
| Lib.ById | src/lib/mod.rs:33-38 | the condition holds of a config row exactly when its id is the given one |
| Lib.ByPath | src/lib/mod.rs:40-45 | the condition holds of a config row exactly when its path is the given one |
| Lib.ByName | src/lib/mod.rs:47-52 | the condition holds of a config row exactly when its path ends with the name |
| Lib.DeleteById | src/lib/mod.rs:33-38 | the configs with the id go and all others stay, in order |
| Lib.DeleteByPath | src/lib/mod.rs:40-45 | the configs with the path go and all others stay, in order |
| Lib.DeleteByName | src/lib/mod.rs:47-52 | the configs whose path ends with the name go and all others stay, in order |
| Lib.Add | src/lib/mod.rs:54-73 | appends the values of a config with the next id, the path, the parsed version and the lines of the file; a bad version number or a missing table fails and changes nothing |
| Lib.FetchRow | src/lib/mod.rs:165-180 | the fetch builder reads `id, version_id, path, data` positionally and accepts exactly the rows whose cells have the config types |
| Lib.FetchBuild | src/lib/mod.rs:166-178 | the closure of `fetch_configs` accepts exactly rows with integer cells at 0 and 1 and text cells at 2 and 3, and gives id, version id, path, and the data text split on newlines without decoding |
| Lib.FetchConfigs | src/lib/mod.rs:164-180 | one config per row in table order, with the stored data split on newlines and not decoded; a missing table or a mistyped row fails |
| Lib.FetchSkipsDecoding | src/lib/mod.rs:165-180 | a created config comes back from the fetch as the lines of its encoded text, while the entity builder gives back the split of its joined lines, which equals its own lines exactly when it has a line and no line holds a newline (`Entities.ConfigRoundTrip`) |
| Lib.Render | src/lib/mod.rs:84-86 | the text `write_all` writes for some lines has at least one character per line and ends with the last line and a newline; `RenderJoin` gives it exactly |
| Lib.RenderJoin | src/lib/mod.rs:84-86 | the rendered text of at least one line is the lines joined by newlines plus one final newline |
| Lib.SplitRender | src/lib/mod.rs:84-86 | splitting the rendered text of lines that hold no newline gives the lines back plus one empty line |
| Lib.RenderSplit | src/lib/mod.rs:84-86 | rendering the lines of a text gives the text plus one newline |
| Lib.RenderLines | src/lib/mod.rs:84-86 | the text written for one config is each of its lines followed by a newline |
| Lib.WriteConfigs | src/lib/mod.rs:81-87 | one file per config in stored order, at its path, holding its rendered lines |
| Lib.WriteAll | src/lib/mod.rs:76-89 | the files of all fetched configs in stored order; a failed fetch writes nothing |
| Lib.Refreshed | src/lib/mod.rs:97-101 | the first n rows get the text of their file as data, the others are unchanged |
| Lib.ReadablePrefix | src/lib/mod.rs:97-101 | the number of leading configs whose file is present |
| Lib.ReadAll | src/lib/mod.rs:91-103 | in table order, each config's data becomes the raw text of its file and nothing else changes; a missing file stops the pass after the configs before it |
| Lib.RefreshAll | src/lib/mod.rs:97-101 | the loop of `read_all` refreshes the leading configs whose files are present and succeeds exactly when all are |
| Lib.RefreshConfig | src/lib/mod.rs:99-100 | one step updates the data of the next config, by its own id |
| Lib.RefreshStep | src/lib/mod.rs:100 | updating the data of a config by its id changes that row only, because ids are unique |
| Listing.TreeItem | src/lib/mod.rs:126-132 | the shift in spaces, the closing connector for the last index (a lone item included) and the branch connector before, one space and the item |
| Listing.FirstNamed | src/lib/mod.rs:118-123 | the name of the first version with the id, and failure exactly when none has it |
| Listing.Versions | src/lib/mod.rs:112-117 | one version per row of the versions table, built from `id, name` |
| Listing.VersionById | src/lib/mod.rs:111-124 | succeeds exactly when the table exists, its rows read as versions and one has the id, and then returns the name stored with that id |
| Listing.Entries | src/lib/mod.rs:142-143 | the per-config `version_by_id` calls of `list_configs`: one entry per config when they all succeed (`EntriesSpec` gives the names) |
| Listing.EntriesOf | src/lib/mod.rs:142-143 | one entry per config on success; its full specification is `Listing.EntriesOfSpec` |
| Listing.EntriesOfSpec | src/lib/mod.rs:142-143 | looking up every config's version succeeds exactly when each is found, and pairs each path with its version's name |
| Listing.EntriesSpec | src/lib/mod.rs:142-143 | the lookups of `list_configs` succeed exactly when `version_by_id` finds each config's version, with the name it gives |
| Listing.Group | src/lib/mod.rs:141-149 | the `HashMap` the loop fills: no group is empty, and the last entry's path closes its version's group; `GroupKeys`, `GroupContents` and `GroupSize` give it exactly |
| Listing.PathsUnder | src/lib/mod.rs:141-149 | the paths filed under a name are exactly those of the entries with that name |
| Listing.GroupKeys | src/lib/mod.rs:141-149 | each entry's version name keys a group and no other name does |
| Listing.GroupContents | src/lib/mod.rs:141-149 | every group holds the paths of its version's configs, in fetch order |
| Listing.Names | src/lib/mod.rs:141-149 | the version names, each once, are exactly those of the entries |
| Listing.GroupSize | src/lib/mod.rs:141-149 | the groups hold as many paths together as there are configs |
| Listing.GroupPaths | src/lib/mod.rs:141-149 | the loop's map is the grouping of the configs' entries, and it fails exactly when `version_by_id` fails for some config |
| Listing.ListConfigs | src/lib/mod.rs:134-162 | a failed fetch fails; no configs gives the notice; otherwise the paths grouped by version name, failing exactly when `version_by_id` fails for some config |
| Listing.RenderGroup | src/lib/mod.rs:150-158 | the version name, then one tree item per path in order, each indented by the name's byte length plus one, with only the last one closing |

## Left out

- SQL text: the statements are not built as strings, so quoting and injection through interpolated values are not modelled. Examples: a `'` in a file's text breaks the `UPDATE` of `read_all`; `delete_by_path` puts the path in double quotes, which SQLite reads as a column name when it names one.
- `LIKE` in `delete_by_name`: modelled as a plain suffix test. SQLite's ASCII case-insensitivity and the `%`/`_` wildcards inside the name are not modelled.
- base64: the codec is a parameter of the model. The panics of a failed decode or of invalid UTF-8 in `decode_lines` are not modelled.
- File I/O: file texts come in as values and written files go out as values. `read_to_string` and `File::create`/`write` and their errors are not modelled; the one exception is a missing file in `read_all`, which fails.
- Connections: `get_db`, `DB_IS_FILE` and `DEFAULT_DB_LOCATION` are not modelled; operations take the tables directly.
- Output: the `println!` lines and the `"================"` separators are not modelled. `list_configs` returns what it would print through `Listing.RenderGroup`.
- `list_versions` only prints, so it is not modelled.
- The order in which `list_configs` prints its groups follows `HashMap` iteration, which is unspecified; the model returns the groups as a map.
- Storage.Table.NextId: does not model the 32-bit `i32` overflow of `id + 1`, because the model's integers are unbounded.
- Entities.GetInt: the cell's value is not narrowed to 32 bits.
- Storage.Table.Update: requires the column not to be `id`, because updating the primary key is never done by the source and is not modelled.
- Storage.Table.Update: the new value is stored as given, without SQLite's column-affinity conversion of the quoted literal.
- Foreign keys: `version_id REFERENCES versions(id)` is not enforced; SQLite does not enforce it without `PRAGMA foreign_keys`.
- `src/main.rs` and `src/entities.rs` are not part of this model. The `#[test]` functions of `src/lib/mod.rs` are not part of this model either; they need a database on disk.
