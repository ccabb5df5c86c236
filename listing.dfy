/**
 * The tree listing of src/lib/mod.rs: `version_by_id`, `tree_item` and the
 * grouping of config paths by version name in `list_configs`. The listing
 * is returned as values instead of printed; a group's printed lines are
 * given by `RenderGroup`.
 */
module Listing {
  import opened Strings
  import opened Storage
  import opened Entities
  import opened Lib

  const BRANCH: string := "├──"
  const LAST_BRANCH: string := "└──"

  /**
   * `tree_item`: `shiftLen` spaces, the connector, a space and the item. The
   * last item of a list, a lone item among them, gets the closing connector.
   */
  function TreeItem(index: nat, totalLen: nat, shiftLen: nat, item: string): (line: string)
    requires index < totalLen
    ensures line == Spaces(shiftLen) + (if index == totalLen - 1 then LAST_BRANCH else BRANCH) + " " + item
  {
    var branch := if (index == 0 && totalLen == 1) || index == totalLen - 1 then LAST_BRANCH else BRANCH;
    Spaces(shiftLen) + branch + " " + item
  }

  /** The name of the first version with the given id (`.filter(..).nth(0)`). */
  function FirstNamed(versions: seq<Version>, id: int): (r: Result<string>)
    ensures r.Success? <==> exists k :: 0 <= k < |versions| && versions[k].id == id
    ensures r.Failure? ==> r.error == VersionNotFound(id)
    ensures r.Success? ==>
              exists k :: 0 <= k < |versions| && versions[k] == Version(id, r.value) &&
                          forall j :: 0 <= j < k ==> versions[j].id != id
  {
    if versions == [] then Failure(VersionNotFound(id))
    else if versions[0].id == id then Success(versions[0].name)
    else
      var r := FirstNamed(versions[1..], id);
      assert forall k :: 1 <= k < |versions| ==> versions[k] == versions[1..][k - 1];
      r
  }

  /** Every stored version row can be read as a version. */
  predicate VersionsReadable(rows: seq<Row>)
  {
    forall k :: 0 <= k < |rows| ==> VersionBuild(rows[k]).Success?
  }

  /** The rows of the versions table as versions (`SELECT id, name FROM versions`). */
  function Versions(versions: Table): (r: Result<seq<Version>>)
    reads versions
    requires versions.Valid() && IsVersionTable(versions)
    ensures !versions.created ==> r == Failure(NoSuchTable(VERSION_TABLE))
    ensures r.Success? <==> versions.created && VersionsReadable(versions.rows)
    ensures r.Success? ==>
              |r.value| == |versions.rows| &&
              forall k :: 0 <= k < |versions.rows| ==> VersionBuild(versions.rows[k]) == Success(r.value[k])
  {
    VersionColumnsAt();
    forall k | 0 <= k < |versions.rows|
      ensures Project(VERSION_COLUMNS, VERSION_COLUMNS, versions.rows[k]) == versions.rows[k]
    {
      ProjectAll(VERSION_COLUMNS, versions.rows[k]);
    }
    versions.Select(VERSION_COLUMNS, VersionBuild)
  }

  /** `version_by_id`: the name stored with the id, failing when no version has it. */
  function VersionById(versions: Table, id: int): (r: Result<string>)
    reads versions
    requires versions.Valid() && IsVersionTable(versions)
    ensures !versions.created ==> r == Failure(NoSuchTable(VERSION_TABLE))
    ensures r.Success? <==> versions.created && VersionsReadable(versions.rows) && id in Ids(versions.rows)
    ensures r.Success? ==>
              exists k :: 0 <= k < |versions.rows| && IdOf(versions.rows[k]) == id &&
                          Cell(VERSION_COLUMNS, versions.rows[k], "name") == Text(r.value)
  {
    VersionColumnsAt();
    var all :- Versions(versions);
    assert forall k :: 0 <= k < |all| ==> all[k].id == IdOf(versions.rows[k]);
    assert id in Ids(versions.rows) ==> exists k :: 0 <= k < |all| && all[k].id == id;
    FirstNamed(all, id)
  }

  /** A config path together with the name of its version. */
  datatype Entry = Entry(versionName: string, path: string)

  /**
   * The entry of each config, with its version looked up among `vs`; the
   * first missing version fails. `EntriesOfSpec` is its specification.
   */
  function EntriesOf(vs: seq<Version>, cs: seq<Config>): (r: Result<seq<Entry>>)
    ensures r.Success? ==> |r.value| == |cs|
  {
    if cs == [] then Success([])
    else
      var rest :- EntriesOf(vs, cs[..|cs| - 1]);
      var name :- FirstNamed(vs, cs[|cs| - 1].versionId);
      Success(rest + [Entry(name, cs[|cs| - 1].path)])
  }

  /** The lookup succeeds exactly when every config's version is among `vs`, and then labels each path. */
  lemma {:induction false} EntriesOfSpec(vs: seq<Version>, cs: seq<Config>)
    ensures EntriesOf(vs, cs).Success? <==> forall k :: 0 <= k < |cs| ==> FirstNamed(vs, cs[k].versionId).Success?
    ensures EntriesOf(vs, cs).Success? ==>
              forall k :: 0 <= k < |cs| ==>
                FirstNamed(vs, cs[k].versionId) == Success(EntriesOf(vs, cs).value[k].versionName) &&
                EntriesOf(vs, cs).value[k].path == cs[k].path
  {
    if cs != [] {
      var init := cs[..|cs| - 1];
      var last := cs[|cs| - 1];
      EntriesOfSpec(vs, init);
      assert forall k :: 0 <= k < |init| ==> init[k] == cs[k];
      var rest := EntriesOf(vs, init);
      if rest.Success? && FirstNamed(vs, last.versionId).Success? {
        var es := EntriesOf(vs, cs).value;
        assert es == rest.value + [Entry(FirstNamed(vs, last.versionId).value, last.path)];
        forall k | 0 <= k < |cs|
          ensures FirstNamed(vs, cs[k].versionId) == Success(es[k].versionName) && es[k].path == cs[k].path
        {
          if k < |init| {
            assert es[k] == rest.value[k];
          }
        }
      }
    }
  }

  /**
   * The version name of every config, in order, as `list_configs` looks
   * them up one by one; nothing is looked up when there are no configs.
   */
  function Entries(versions: Table, cs: seq<Config>): (r: Result<seq<Entry>>)
    reads versions
    requires versions.Valid() && IsVersionTable(versions)
    ensures r.Success? ==> |r.value| == |cs|
  {
    if cs == [] then Success([])
    else
      var vs :- Versions(versions);
      EntriesOf(vs, cs)
  }

  /**
   * The lookup succeeds exactly when `version_by_id` finds every config's
   * version, and then files each config's path under that version's name.
   */
  lemma EntriesSpec(versions: Table, cs: seq<Config>)
    requires versions.Valid() && IsVersionTable(versions)
    ensures Entries(versions, cs).Success? <==> forall k :: 0 <= k < |cs| ==> VersionById(versions, cs[k].versionId).Success?
    ensures Entries(versions, cs).Success? ==>
              forall k :: 0 <= k < |cs| ==>
                VersionById(versions, cs[k].versionId) == Success(Entries(versions, cs).value[k].versionName) &&
                Entries(versions, cs).value[k].path == cs[k].path
  {
    if cs != [] {
      var vs := Versions(versions);
      if vs.Success? {
        EntriesOfSpec(vs.value, cs);
      } else {
        assert VersionById(versions, cs[0].versionId).Failure?;
      }
    }
  }

  /** The paths grouped by version name, as `list_configs` fills its `HashMap`. */
  function Group(es: seq<Entry>): (m: map<string, seq<string>>)
    ensures forall name :: name in m ==> |m[name]| > 0
    ensures es != [] ==>
              var e := es[|es| - 1];
              e.versionName in m && m[e.versionName][|m[e.versionName]| - 1] == e.path
  {
    if es == [] then map[]
    else
      var m := Group(es[..|es| - 1]);
      var e := es[|es| - 1];
      if e.versionName in m then m[e.versionName := m[e.versionName] + [e.path]]
      else m[e.versionName := [e.path]]
  }

  /** The paths of the entries filed under a name, in their order. */
  function PathsUnder(es: seq<Entry>, name: string): (paths: seq<string>)
    ensures forall p :: p in paths <==> exists k :: 0 <= k < |es| && es[k] == Entry(name, p)
  {
    if es == [] then []
    else
      var init := es[..|es| - 1];
      assert forall k :: 0 <= k < |init| ==> init[k] == es[k];
      PathsUnder(init, name) + (if es[|es| - 1].versionName == name then [es[|es| - 1].path] else [])
  }

  /** Each name of an entry keys a group and no other name does. */
  lemma {:induction false} GroupKeys(es: seq<Entry>)
    ensures forall name :: name in Group(es) <==> exists k :: 0 <= k < |es| && es[k].versionName == name
  {
    if es != [] {
      var init := es[..|es| - 1];
      GroupKeys(init);
      assert forall k :: 0 <= k < |init| ==> init[k] == es[k];
    }
  }

  /** A group holds the paths filed under its name, in entry order. */
  lemma {:induction false} GroupContents(es: seq<Entry>)
    ensures forall name :: name in Group(es) ==> Group(es)[name] == PathsUnder(es, name)
  {
    if es != [] {
      var init := es[..|es| - 1];
      var e := es[|es| - 1];
      GroupContents(init);
      GroupKeys(init);
      if e.versionName !in Group(init) {
        if PathsUnder(init, e.versionName) != [] {
          assert PathsUnder(init, e.versionName)[0] in PathsUnder(init, e.versionName);
        }
      }
    }
  }

  /** The version names of the entries, each once, in order of first appearance. */
  function Names(es: seq<Entry>): (names: seq<string>)
    ensures Distinct(names)
    ensures forall n :: n in names <==> exists k :: 0 <= k < |es| && es[k].versionName == n
  {
    if es == [] then []
    else
      var init := es[..|es| - 1];
      assert forall k :: 0 <= k < |init| ==> init[k] == es[k];
      var names := Names(init);
      if es[|es| - 1].versionName in names then names else names + [es[|es| - 1].versionName]
  }

  /** The number of paths in the groups of the given names. */
  function Total(m: map<string, seq<string>>, names: seq<string>): nat
    requires forall n :: n in names ==> n in m
  {
    if names == [] then 0 else Total(m, names[..|names| - 1]) + |m[names[|names| - 1]]|
  }

  /** Changing the group of one listed name changes the total by the difference of its sizes. */
  lemma {:induction false} TotalUpdate(m: map<string, seq<string>>, names: seq<string>, name: string, paths: seq<string>)
    requires forall n :: n in names ==> n in m
    requires Distinct(names) && name in m
    ensures Total(m[name := paths], names) == if name in names then Total(m, names) - |m[name]| + |paths| else Total(m, names)
  {
    if names != [] {
      var init := names[..|names| - 1];
      assert forall k :: 0 <= k < |init| ==> init[k] == names[k];
      assert name in names <==> name in init || name == names[|names| - 1];
      assert Distinct(init) by {
        assert forall i, j :: 0 <= i < j < |init| ==> init[i] == names[i] && init[j] == names[j];
      }
      if name == names[|names| - 1] {
        assert name !in init;
      }
      TotalUpdate(m, init, name, paths);
    }
  }

  /** A total over names that miss a key does not see that key. */
  lemma {:induction false} TotalFrame(m: map<string, seq<string>>, names: seq<string>, name: string, paths: seq<string>)
    requires forall n :: n in names ==> n in m
    requires name !in names
    ensures Total(m[name := paths], names) == Total(m, names)
  {
    if names != [] {
      var init := names[..|names| - 1];
      assert forall k :: 0 <= k < |init| ==> init[k] == names[k];
      TotalFrame(m, init, name, paths);
    }
  }

  /** Every entry is counted in exactly one group: the groups hold as many paths as there are entries. */
  lemma {:induction false} GroupSize(es: seq<Entry>)
    ensures forall n :: n in Names(es) ==> n in Group(es)
    ensures Total(Group(es), Names(es)) == |es|
  {
    GroupKeys(es);
    if es != [] {
      var init := es[..|es| - 1];
      var e := es[|es| - 1];
      GroupSize(init);
      GroupKeys(init);
      var m := Group(init);
      var names := Names(init);
      if e.versionName in m {
        assert e.versionName in names;
        TotalUpdate(m, names, e.versionName, m[e.versionName] + [e.path]);
      } else {
        assert e.versionName !in names;
        TotalFrame(m, names, e.versionName, [e.path]);
        assert (names + [e.versionName])[..|names|] == names;
      }
    }
  }

  /** What `list_configs` shows: a notice for an empty table, or the groups of paths. */
  datatype Listing = NoConfigs | Groups(groups: map<string, seq<string>>)

  /** One more config: its version name is looked up, or the whole lookup fails. */
  lemma EntriesStep(versions: Table, cs: seq<Config>, i: nat, es: seq<Entry>)
    requires versions.Valid() && IsVersionTable(versions)
    requires i < |cs| && Entries(versions, cs[..i]) == Success(es)
    ensures VersionById(versions, cs[i].versionId).Failure? ==> Entries(versions, cs).Failure?
    ensures VersionById(versions, cs[i].versionId).Success? ==>
              Entries(versions, cs[..i + 1]) == Success(es + [Entry(VersionById(versions, cs[i].versionId).value, cs[i].path)])
  {
    assert cs[..i + 1][..i] == cs[..i];
    EntriesSpec(versions, cs);
    var vs := Versions(versions);
    if vs.Success? {
      assert Entries(versions, cs[..i]) == EntriesOf(vs.value, cs[..i]);
      assert Entries(versions, cs[..i + 1]) == EntriesOf(vs.value, cs[..i + 1]);
    }
  }

  /** Filing one more entry appends its path to its group, or starts the group. */
  lemma GroupSnoc(es: seq<Entry>, e: Entry)
    ensures Group(es + [e]) ==
              var m := Group(es);
              if e.versionName in m then m[e.versionName := m[e.versionName] + [e.path]] else m[e.versionName := [e.path]]
  {
    assert (es + [e])[..|es|] == es;
  }

  /** The loop of `list_configs`: files each config's path under its version's name. */
  method GroupPaths(versions: Table, cs: seq<Config>) returns (r: Result<map<string, seq<string>>>)
    requires versions.Valid() && IsVersionTable(versions)
    ensures r.Success? <==> Entries(versions, cs).Success?
    ensures r.Success? ==> r.value == Group(Entries(versions, cs).value)
  {
    var groups: map<string, seq<string>> := map[];
    ghost var es: seq<Entry> := [];
    for i := 0 to |cs|
      invariant Entries(versions, cs[..i]) == Success(es)
      invariant groups == Group(es)
    {
      var name := VersionById(versions, cs[i].versionId);
      EntriesStep(versions, cs, i, es);
      if name.Failure? {
        return Failure(name.error);
      }
      GroupSnoc(es, Entry(name.value, cs[i].path));
      if name.value in groups {
        groups := groups[name.value := groups[name.value] + [cs[i].path]];
      } else {
        groups := groups[name.value := [cs[i].path]];
      }
      es := es + [Entry(name.value, cs[i].path)];
    }
    assert cs[..|cs|] == cs;
    r := Success(groups);
  }

  /**
   * `list_configs` without the printing: the paths of all configs, grouped
   * by the name of their version, in fetch order within a group.
   */
  method ListConfigs(configs: Table, versions: Table) returns (r: Result<Listing>)
    requires configs.Valid() && IsConfigTable(configs)
    requires versions.Valid() && IsVersionTable(versions)
    ensures FetchConfigs(configs).Failure? ==> r == Failure(FetchConfigs(configs).error)
    ensures FetchConfigs(configs).Success? ==>
              var cs := FetchConfigs(configs).value;
              (r.Success? <==> Entries(versions, cs).Success?) &&
              (r.Success? ==> r.value == if cs == [] then NoConfigs else Groups(Group(Entries(versions, cs).value)))
  {
    var fetched := FetchConfigs(configs);
    if fetched.Failure? {
      return Failure(fetched.error);
    }
    var cs := fetched.value;
    if |cs| == 0 {
      return Success(NoConfigs);
    }
    var groups :- GroupPaths(versions, cs);
    r := Success(Groups(groups));
  }

  /**
   * The lines `list_configs` prints for one group: the version name, then
   * one tree item per path indented by the name's byte length plus one.
   */
  method RenderGroup(name: string, paths: seq<string>) returns (lines: seq<string>)
    ensures |lines| == |paths| + 1 && lines[0] == name
    ensures forall i :: 0 <= i < |paths| ==>
              lines[i + 1] == Spaces(Utf8Length(name) + 1) + (if i == |paths| - 1 then LAST_BRANCH else BRANCH) + " " + paths[i]
  {
    lines := [name];
    for i := 0 to |paths|
      invariant |lines| == i + 1 && lines[0] == name
      invariant forall k :: 0 <= k < i ==> lines[k + 1] == TreeItem(k, |paths|, Utf8Length(name) + 1, paths[k])
    {
      lines := lines + [TreeItem(i, |paths|, Utf8Length(name) + 1, paths[i])];
    }
  }
}
