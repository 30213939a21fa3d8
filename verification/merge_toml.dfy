/**
 * `main` in src/mcpset/merge_toml.py: the central JSON's `mcpServers` are
 * merged into a Codex TOML file's `mcp_servers` table server by server, and a
 * report says what each server gained.
 *
 * The source walks the union of the two name sets in `set` order, which is
 * not fixed, so the merged table is modelled as a map from server name to
 * entry.
 */
module MergeToml {
  import opened Wrappers
  import opened ConfigTree
  import opened AppendOnlyMerge

  /** `ensure_table(doc, key)`: a missing or null entry becomes an empty table; anything else is left as it is. */
  function EnsureTable(doc: Fields, key: string): (r: Fields)
    ensures HasKey(r, key)
    ensures !HasKey(doc, key) || Get(doc, key) == Null ==> Get(r, key) == Obj([])
    ensures HasKey(doc, key) && Get(doc, key) != Null ==> r == doc
    ensures forall k :: k != key ==> (HasKey(r, k) <==> HasKey(doc, k))
    ensures forall k :: k != key && HasKey(doc, k) ==> Get(r, k) == Get(doc, k)
  {
    if !HasKey(doc, key) || Get(doc, key) == Null then SetKey(doc, key, Obj([])) else doc
  }

  /** `central.get('mcpServers', {})`, with anything other than a mapping read as empty. */
  function CentralServers(central: Fields): (r: Fields)
    ensures r != [] ==> HasKey(central, "mcpServers") && Get(central, "mcpServers") == Obj(r)
    ensures HasKey(central, "mcpServers") && Get(central, "mcpServers").Obj? ==> Obj(r) == Get(central, "mcpServers")
  {
    if HasKey(central, "mcpServers") && Get(central, "mcpServers").Obj? then Get(central, "mcpServers").fields
    else []
  }

  /** A mapping with distinct keys as a map. */
  function AsMap(fs: Fields): (r: map<string, Tree>)
    ensures r.Keys == KeySet(fs)
    ensures forall k :: k in r ==> HasKey(fs, k) && r[k] == Get(fs, k)
  {
    KeySetOf(fs);
    map k | k in KeySet(fs) :: Get(fs, k)
  }

  /** The entry of one server in the merged table. */
  function MergedEntry(existing: Fields, central: Fields, name: string): Tree
    requires HasKey(existing, name) || HasKey(central, name)
  {
    if HasKey(existing, name) && HasKey(central, name) then AppendOnly(Get(existing, name), Get(central, name))
    else if HasKey(existing, name) then Get(existing, name)
    else Get(central, name)
  }

  /** The merged `mcp_servers` table: every existing and every central server. */
  function MergeServers(existing: Fields, central: Fields): (r: map<string, Tree>)
    ensures r.Keys == KeySet(existing) + KeySet(central)
  {
    KeySetOf(existing);
    KeySetOf(central);
    map n | n in KeySet(existing) + KeySet(central) :: MergedEntry(existing, central, n)
  }

  /** What the report says one server gained. */
  datatype ServerReport = ServerReport(addedKeys: seq<string>, addedEnvKeys: seq<string>, addedArrayItems: Fields)

  /** The report of a server that gained nothing. */
  const NoChange := ServerReport([], [], [])

  /** `a.get('env', {})` when that is a mapping, otherwise an empty mapping. */
  function EnvOf(a: Fields): Fields {
    if HasKey(a, "env") && Get(a, "env").Obj? then Get(a, "env").fields else []
  }

  /** `a.get(k, [])` when that is a list, otherwise an empty list. */
  function ListAt(a: Fields, k: string): seq<Tree> {
    if HasKey(a, k) && Get(a, k).Arr? then Get(a, k).items else []
  }

  /**
   * The arrays loop for a shared server: for each list under a key of the
   * central entry, its items the existing entry's list at that key lacks,
   * recorded only when there are any.
   */
  function NewArrayItems(a: Fields, b: Fields): (r: Fields)
    ensures forall j :: 0 <= j < |r| ==> r[j].1.Arr? && |r[j].1.items| > 0
    ensures |r| <= |b|
  {
    if |b| == 0 then []
    else
      var rest := NewArrayItems(a, b[1..]);
      if b[0].1.Arr? && |Unseen(b[0].1.items, ListAt(a, b[0].0))| > 0 then
        [(b[0].0, Arr(Unseen(b[0].1.items, ListAt(a, b[0].0))))] + rest
      else rest
  }

  /** The report for a server both sides have. */
  function SharedReport(a: Tree, b: Tree): ServerReport {
    if a.Obj? && b.Obj? then
      ServerReport(
        Keys(NewEntries(b.fields, Keys(a.fields))),
        if HasKey(b.fields, "env") && Get(b.fields, "env").Obj?
        then Keys(NewEntries(Get(b.fields, "env").fields, Keys(EnvOf(a.fields))))
        else [],
        NewArrayItems(a.fields, b.fields))
    else NoChange
  }

  /** The report for a server only the central side has: all of its keys, env keys and lists. */
  function NewServerReport(b: Tree): ServerReport {
    if b.Obj? then
      ServerReport(
        Keys(b.fields),
        if HasKey(b.fields, "env") && Get(b.fields, "env").Obj? then Keys(Get(b.fields, "env").fields) else [],
        ListsOf(b.fields))
    else NoChange
  }

  /** The list-valued entries of a mapping. */
  function ListsOf(fs: Fields): (r: Fields)
    ensures forall j :: 0 <= j < |r| ==> r[j].1.Arr?
  {
    if |fs| == 0 then []
    else (if fs[0].1.Arr? then [fs[0]] else []) + ListsOf(fs[1..])
  }

  /** The `perServer` report entry of one merged server. */
  function ReportFor(existing: Fields, central: Fields, name: string): ServerReport {
    if HasKey(existing, name) && HasKey(central, name) then SharedReport(Get(existing, name), Get(central, name))
    else if HasKey(existing, name) then NoChange
    else if HasKey(central, name) then NewServerReport(Get(central, name))
    else NoChange
  }

  datatype Report = Report(addedServers: set<string>, perServer: map<string, ServerReport>)

  /** The whole outcome of `main`: the merged table and the report. */
  datatype Outcome = Outcome(merged: map<string, Tree>, report: Report)

  /** `main`, given the central JSON's top level and the target's existing server table. */
  function MergeMain(central: Fields, existing: Fields): (r: Outcome)
    ensures r.merged.Keys == r.report.perServer.Keys
    ensures forall n :: n in r.report.addedServers <==> n in r.merged && !HasKey(existing, n)
  {
    var cs := CentralServers(central);
    var merged := MergeServers(existing, cs);
    KeySetOf(existing);
    Outcome(
      merged,
      Report(
        set n | n in merged && n !in KeySet(existing),
        map n | n in merged :: ReportFor(existing, cs, n)))
  }

  /**
   * A table value that tomlkit iterates as empty although it is not a table:
   * an empty string or an empty array.
   */
  predicate EmptyNonTable(t: Tree) {
    t == Str("") || t == Arr([])
  }

  /** A tree with a JSON null anywhere in it: tomlkit has no null and refuses to convert one. */
  predicate HoldsNull(t: Tree) {
    match t
    case Null => true
    case Arr(xs) => exists i :: 0 <= i < |xs| && HoldsNull(xs[i])
    case Obj(fs) => exists i :: 0 <= i < |fs| && HoldsNull(fs[i].1)
    case _ => false
  }

  /** Every merged server can be assigned back into a tomlkit table. */
  predicate AssignableBack(m: map<string, Tree>) {
    forall n :: n in m ==> !HoldsNull(m[n])
  }

  /**
   * `main` on a whole target document up to the assignment back, following
   * the tomlkit path: its `mcp_servers` table, created empty when missing or
   * null, is the existing side. An empty string or empty array iterates as an
   * empty table, and the run then gets past the assignment only when nothing
   * has to be assigned into it. Any other value makes the source fail; that is
   * `None` here.
   */
  function MergeTable(central: Fields, doc: Fields): (r: Option<Outcome>)
    ensures r.None? <==>
      (&& HasKey(doc, "mcp_servers")
       && !Get(doc, "mcp_servers").Obj? && Get(doc, "mcp_servers") != Null
       && !(EmptyNonTable(Get(doc, "mcp_servers")) && CentralServers(central) == []))
    ensures (!HasKey(doc, "mcp_servers") || Get(doc, "mcp_servers") == Null) ==>
      r.Some? && r.value.merged == AsMap(CentralServers(central))
    ensures HasKey(doc, "mcp_servers") && EmptyNonTable(Get(doc, "mcp_servers")) && CentralServers(central) == [] ==>
      r.Some? && r.value.merged == map[] && r.value.report.addedServers == {} && r.value.report.perServer == map[]
    ensures HasKey(doc, "mcp_servers") && Get(doc, "mcp_servers").Obj? ==>
      r == Some(MergeMain(central, Get(doc, "mcp_servers").fields))
  {
    var table := Get(EnsureTable(doc, "mcp_servers"), "mcp_servers");
    if table.Obj? then
      if table.fields == [] then
        NothingExisting(CentralServers(central));
        Some(MergeMain(central, []))
      else Some(MergeMain(central, table.fields))
    else if EmptyNonTable(table) && CentralServers(central) == [] then
      NothingExisting([]);
      Some(MergeMain(central, []))
    else None
  }

  /**
   * `main` on a whole target document: the merge of the table, which then
   * fails when a merged server holds a null that tomlkit cannot take.
   */
  function MergeDocument(central: Fields, doc: Fields): (r: Option<Outcome>)
    ensures r.None? <==> MergeTable(central, doc).None? || !AssignableBack(MergeTable(central, doc).value.merged)
    ensures r.Some? ==> r == MergeTable(central, doc)
    ensures r.Some? ==> forall n :: n in r.value.merged ==> !HoldsNull(r.value.merged[n])
  {
    match MergeTable(central, doc)
    case Some(o) => if AssignableBack(o.merged) then Some(o) else None
    case None => None
  }

  /**
   * On an existing table with distinct keys, the merged table is the
   * top-level `append_only` of the table and the central servers, and the run
   * succeeds exactly when no merged server holds a null.
   */
  lemma MergeDocumentIsAppendOnly(central: Fields, doc: Fields)
    requires HasKey(doc, "mcp_servers") && Get(doc, "mcp_servers").Obj?
    requires DistinctKeys(Get(doc, "mcp_servers").fields) && DistinctKeys(CentralServers(central))
    ensures var whole := AppendOnly(Obj(Get(doc, "mcp_servers").fields), Obj(CentralServers(central))).fields;
      && MergeTable(central, doc).Some?
      && MergeTable(central, doc).value.merged == AsMap(whole)
      && (MergeDocument(central, doc).Some? <==> forall j :: 0 <= j < |whole| ==> !HoldsNull(whole[j].1))
  {
    var table := Get(doc, "mcp_servers").fields;
    var cs := CentralServers(central);
    MergeIsAppendOnly(table, cs);
    var whole := AppendOnly(Obj(table), Obj(cs)).fields;
    var m := AsMap(whole);
    forall j | 0 <= j < |whole| ensures whole[j].0 in m && m[whole[j].0] == whole[j].1 {
      GetAt(whole, j);
    }
  }

  /**
   * A central server with a null inside, say `{"env": null}`, makes the run
   * fail on a target without `mcp_servers`: tomlkit cannot assign it back.
   */
  lemma NullServerFails()
    ensures MergeDocument([("mcpServers", Obj([("s", Obj([("env", Null)]))]))], []) == None
  {
    var central := [("mcpServers", Obj([("s", Obj([("env", Null)]))]))];
    var cs := [("s", Obj([("env", Null)]))];
    assert Keys(central) == ["mcpServers"] && Keys(cs) == ["s"];
    assert CentralServers(central) == cs;
    KeySetOf(cs);
    var m := MergeTable(central, []).value.merged;
    assert "s" in m && m["s"] == Obj([("env", Null)]);
    assert HoldsNull(Obj([("env", Null)]).fields[0].1);
  }

  // ---- The merged table ----

  /** Into an empty table every central server is copied as it is. */
  lemma NothingExisting(cs: Fields)
    ensures MergeServers([], cs) == AsMap(cs)
  {
    KeySetOf(cs);
    KeySetOf([]);
    var m := MergeServers([], cs);
    var w := AsMap(cs);
    assert m.Keys == w.Keys;
  }

  /**
   * The table is the append-only merge of the two server maps, seen as maps:
   * the same names, and each name's entry is the top-level merge's entry.
   */
  lemma MergeIsAppendOnly(existing: Fields, central: Fields)
    requires DistinctKeys(existing) && DistinctKeys(central)
    ensures var whole := AppendOnly(Obj(existing), Obj(central)).fields;
      && DistinctKeys(whole)
      && MergeServers(existing, central) == AsMap(whole)
  {
    var whole := AppendOnly(Obj(existing), Obj(central)).fields;
    MergeObjects(existing, central);
    MergedKeys(existing, central);
    KeySetOf(whole);
    KeySetOf(existing);
    KeySetOf(central);
    var m := MergeServers(existing, central);
    var w := AsMap(whole);
    assert m.Keys == w.Keys;
    forall n | n in m ensures m[n] == w[n] {
      WholeEntry(existing, central, n);
    }
  }

  /** One name's entry in the top-level merge of two server maps. */
  lemma WholeEntry(fs: Fields, gs: Fields, n: string)
    requires DistinctKeys(fs) && DistinctKeys(gs)
    requires HasKey(fs, n) || HasKey(gs, n)
    ensures var whole := AppendOnly(Obj(fs), Obj(gs)).fields;
      HasKey(whole, n) && Get(whole, n) == MergedEntry(fs, gs, n)
  {
    MergeObjects(fs, gs);
    MergedKeys(fs, gs);
    var up := UpdateShared(fs, gs);
    var ne := NewEntries(gs, Keys(fs));
    var whole := up + ne;
    if HasKey(fs, n) {
      var i := IndexOf(fs, n);
      assert whole[i] == up[i];
      GetAt(whole, i);
    } else {
      NewEntriesFacts(gs, Keys(fs));
      var j := IndexOf(ne, n);
      assert whole[|up| + j] == ne[j];
      GetAt(whole, |up| + j);
    }
  }

  /** A central `mcpServers` that is not a mapping changes nothing. */
  lemma NonMappingCentral(central: Fields, existing: Fields)
    requires !(HasKey(central, "mcpServers") && Get(central, "mcpServers").Obj?)
    ensures MergeMain(central, existing).merged == AsMap(existing)
    ensures MergeMain(central, existing).report.addedServers == {}
  {
    KeySetOf(existing);
    KeySetOf([]);
  }

  /** Existing servers keep their entries up to the append-only merge; new servers are copied whole. */
  lemma MergedEntries(existing: Fields, central: Fields, n: string)
    requires WF(Obj(existing)) && WF(Obj(central))
    ensures var m := MergeServers(existing, central);
      && (HasKey(existing, n) ==> n in m && Extends(Get(existing, n), m[n]))
      && (HasKey(central, n) && !HasKey(existing, n) ==> n in m && m[n] == Get(central, n))
  {
    KeySetOf(existing);
    KeySetOf(central);
    if HasKey(existing, n) {
      var i := IndexOf(existing, n);
      assert WF(existing[i].1);
      if HasKey(central, n) {
        var j := IndexOf(central, n);
        assert WF(central[j].1);
        NoRegression(Get(existing, n), Get(central, n));
      } else {
        ExtendsReflexive(Get(existing, n));
      }
    }
  }

  // ---- The report ----

  /**
   * For a shared server whose two entries are mappings, `addedKeys` are
   * exactly the keys the merge appends to the existing entry, in the order
   * they are appended.
   */
  lemma AddedKeysMatchMerge(a: Fields, b: Fields)
    requires DistinctKeys(a) && DistinctKeys(b)
    ensures Keys(AppendOnly(Obj(a), Obj(b)).fields) == Keys(a) + SharedReport(Obj(a), Obj(b)).addedKeys
  {
    MergeObjects(a, b);
    var up := UpdateShared(a, b);
    var ne := NewEntries(b, Keys(a));
    assert Keys(up) == Keys(a);
    assert Keys(up + ne) == Keys(up) + Keys(ne);
  }

  /**
   * `addedEnvKeys` of a shared server whose `env` is a mapping on both sides:
   * the merged `env` is the merge of the two, and its keys are the existing
   * env keys followed by exactly the reported ones, in order.
   */
  lemma AddedEnvKeysMatchMerge(a: Fields, b: Fields)
    requires WF(Obj(a)) && WF(Obj(b))
    requires HasKey(a, "env") && HasKey(b, "env") && Get(a, "env").Obj? && Get(b, "env").Obj?
    ensures var whole := AppendOnly(Obj(a), Obj(b)).fields;
      && HasKey(whole, "env")
      && Get(whole, "env") == AppendOnly(Get(a, "env"), Get(b, "env"))
      && Get(whole, "env").Obj?
      && Keys(Get(whole, "env").fields) == Keys(Get(a, "env").fields) + SharedReport(Obj(a), Obj(b)).addedEnvKeys
  {
    ObjectMerge(a, b);
    var whole := AppendOnly(Obj(a), Obj(b)).fields;
    var i := IndexOf(a, "env");
    GetAt(whole, i);
    assert WF(a[i].1) && WF(b[IndexOf(b, "env")].1);
    var ae := Get(a, "env").fields;
    var be := Get(b, "env").fields;
    assert EnvOf(a) == ae;
    AddedKeysMatchMerge(ae, be);
  }

  /** `addedKeys` of a shared server: the central entry's keys the existing entry lacks, and only those. */
  lemma AddedKeysAreMissing(a: Fields, b: Fields)
    requires DistinctKeys(b)
    ensures forall k :: k in SharedReport(Obj(a), Obj(b)).addedKeys <==> HasKey(b, k) && !HasKey(a, k)
  {
    NewEntriesFacts(b, Keys(a));
    var ne := NewEntries(b, Keys(a));
    forall k ensures k in Keys(ne) <==> HasKey(b, k) && !HasKey(a, k) {
      if k in Keys(ne) {
        var j :| 0 <= j < |ne| && Keys(ne)[j] == k;
        assert ne[j].0 == k;
      }
    }
  }

  /**
   * `addedArrayItems` of a shared server, where the existing value is a list
   * too, is exactly the tail the merge appends to that list.
   */
  lemma ArrayItemsMatchMerge(a: Fields, b: Fields, k: string)
    requires DistinctKeys(a) && DistinctKeys(b)
    requires HasKey(a, k) && HasKey(b, k) && Get(a, k).Arr? && Get(b, k).Arr?
    ensures var whole := AppendOnly(Obj(a), Obj(b)).fields;
      var tail := Unseen(Get(b, k).items, Get(a, k).items);
      && HasKey(whole, k) && Get(whole, k) == Arr(Get(a, k).items + tail)
      && (|tail| > 0 ==> HasKey(NewArrayItems(a, b), k) && Get(NewArrayItems(a, b), k) == Arr(tail))
      && (|tail| == 0 ==> !HasKey(NewArrayItems(a, b), k))
  {
    ObjectMerge(a, b);
    var whole := AppendOnly(Obj(a), Obj(b)).fields;
    GetAt(whole, IndexOf(a, k));
    NewArrayItemsAt(a, b, k);
  }

  lemma {:induction false} NewArrayItemsAt(a: Fields, b: Fields, k: string)
    requires DistinctKeys(b) && HasKey(b, k) && Get(b, k).Arr?
    ensures var tail := Unseen(Get(b, k).items, ListAt(a, k));
      && (|tail| > 0 ==> HasKey(NewArrayItems(a, b), k) && Get(NewArrayItems(a, b), k) == Arr(tail))
      && (|tail| == 0 ==> !HasKey(NewArrayItems(a, b), k))
  {
    var rest := b[1..];
    NewArrayItemsKeys(a, rest);
    if b[0].0 == k {
      assert HasKey(b, k) && IndexOf(b, k) == 0 by { IndexOfFirst(b, k, 0); }
      NoLaterDuplicate(b, 0);
      var r := NewArrayItems(a, b);
      if |Unseen(b[0].1.items, ListAt(a, k))| > 0 {
        IndexOfFirst(r, k, 0);
      }
    } else {
      DropHead(b, k);
      assert DistinctKeys(rest) by {
        forall i, j | 0 <= i < j < |rest| ensures rest[i].0 != rest[j].0 {
          assert rest[i] == b[i + 1] && rest[j] == b[j + 1];
        }
      }
      NewArrayItemsAt(a, rest, k);
      var r := NewArrayItems(a, b);
      var tail := Unseen(Get(b, k).items, ListAt(a, k));
      if b[0].1.Arr? && |Unseen(b[0].1.items, ListAt(a, b[0].0))| > 0 {
        DropHead(r, k);
      }
    }
  }

  /** Every key the arrays report names is a key of the central entry. */
  lemma {:induction false} NewArrayItemsKeys(a: Fields, b: Fields)
    ensures forall k :: HasKey(NewArrayItems(a, b), k) ==> HasKey(b, k)
  {
    if |b| > 0 {
      NewArrayItemsKeys(a, b[1..]);
      var r := NewArrayItems(a, b);
      var rest := NewArrayItems(a, b[1..]);
      forall k | HasKey(r, k) ensures HasKey(b, k) {
        if k != b[0].0 {
          assert Keys(b) == [b[0].0] + Keys(b[1..]);
          if b[0].1.Arr? && |Unseen(b[0].1.items, ListAt(a, b[0].0))| > 0 {
            assert Keys(r) == [b[0].0] + Keys(rest);
          }
          assert HasKey(rest, k);
        } else {
          assert Keys(b)[0] == k;
        }
      }
    }
  }

  /**
   * Where the existing value is not a list, the report counts it as empty and
   * lists every central item, though the merge keeps the existing value.
   */
  lemma ArrayReportOverstates()
    ensures var a := [("args", Str("x"))];
      var b := [("args", Arr([Str("y")]))];
      && NewArrayItems(a, b) == [("args", Arr([Str("y")]))]
      && AppendOnly(Obj(a), Obj(b)) == Obj(a)
  {
    var a := [("args", Str("x"))];
    var b := [("args", Arr([Str("y")]))];
    assert Keys(a) == ["args"] && Keys(b) == ["args"];
    assert ListAt(a, "args") == [];
    assert Unseen([Str("y")], []) == [Str("y")];
    MergeObjects(a, b);
    GetAt(b, 0);
    assert NewEntries(b, Keys(a)) == [];
  }

  /**
   * Likewise an existing `env` that is not a mapping counts as empty: every
   * central env key is reported, though the merge keeps the existing value.
   */
  lemma EnvReportOverstates()
    ensures var a := [("env", Str("x"))];
      var b := [("env", Obj([("TOKEN", Str("t"))]))];
      && SharedReport(Obj(a), Obj(b)).addedEnvKeys == ["TOKEN"]
      && AppendOnly(Obj(a), Obj(b)) == Obj(a)
  {
    var a := [("env", Str("x"))];
    var b := [("env", Obj([("TOKEN", Str("t"))]))];
    assert Keys(a) == ["env"] && Keys(b) == ["env"];
    GetAt(b, 0);
    assert EnvOf(a) == [];
    assert Keys([("TOKEN", Str("t"))]) == ["TOKEN"];
    assert NewEntries([("TOKEN", Str("t"))], []) == [("TOKEN", Str("t"))];
    MergeObjects(a, b);
    assert NewEntries(b, Keys(a)) == [];
  }

  /** A brand-new server's report lists all of its keys, all of its env keys and every one of its lists. */
  lemma NewServerReportsAll(b: Fields)
    ensures var r := NewServerReport(Obj(b));
      && r.addedKeys == Keys(b)
      && (HasKey(b, "env") && Get(b, "env").Obj? ==> r.addedEnvKeys == Keys(Get(b, "env").fields))
      && (forall j :: 0 <= j < |b| && b[j].1.Arr? ==> b[j] in r.addedArrayItems)
  {
    ListsOfKeeps(b);
  }

  lemma {:induction false} ListsOfKeeps(fs: Fields)
    ensures forall j :: 0 <= j < |fs| && fs[j].1.Arr? ==> fs[j] in ListsOf(fs)
    ensures forall e :: e in ListsOf(fs) ==> e in fs
  {
    if |fs| > 0 {
      ListsOfKeeps(fs[1..]);
      assert forall j :: 1 <= j < |fs| ==> fs[j] == fs[1..][j - 1];
    }
  }

  /** `addedServers` are the central servers the target did not have. */
  lemma AddedServersAreNew(central: Fields, existing: Fields)
    ensures MergeMain(central, existing).report.addedServers == KeySet(CentralServers(central)) - KeySet(existing)
  {
    KeySetOf(existing);
    KeySetOf(CentralServers(central));
  }
}
