/**
 * Collection and distribution: `cmd_init` folds the server maps of the source
 * targets into the central map, and `cmd_sync` merges the central map into
 * every destination and rewrites only the destinations that change. Both live
 * in src/mcpset/cli.py.
 *
 * The file system is a map from path to the top-level mapping of the file at
 * that path; a path that is not in the map does not exist.
 */
module Sync {
  import opened ConfigTree
  import opened AppendOnlyMerge
  import opened Targets

  type Disk = map<string, Fields>

  /** Every file on disk is a well-formed mapping. */
  predicate DiskWF(disk: Disk) {
    forall p :: p in disk ==> WF(Obj(disk[p]))
  }

  predicate Readable(t: Target) {
    t.kind == "json" || t.kind == "toml"
  }

  /**
   * `_read_target_servers`: the mapping under the target's root key, or an
   * empty mapping when the format is unknown, the file is missing, or the root
   * key is missing or does not hold a mapping.
   */
  function ReadServers(t: Target, disk: Disk): (r: Fields)
    ensures r != [] ==> (Readable(t) && t.path in disk && HasKey(disk[t.path], t.root)
      && Get(disk[t.path], t.root) == Obj(r))
    ensures Readable(t) && t.path in disk && HasKey(disk[t.path], t.root) && Get(disk[t.path], t.root).Obj? ==>
      Obj(r) == Get(disk[t.path], t.root)
  {
    if Readable(t) && t.path in disk && HasKey(disk[t.path], t.root) && Get(disk[t.path], t.root).Obj?
    then Get(disk[t.path], t.root).fields
    else []
  }

  lemma ReadServersWF(t: Target, disk: Disk)
    requires DiskWF(disk)
    ensures WF(Obj(ReadServers(t, disk)))
  {
    if Readable(t) && t.path in disk && HasKey(disk[t.path], t.root) && Get(disk[t.path], t.root).Obj? {
      var fs := disk[t.path];
      assert WF(Obj(fs));
      var i := IndexOf(fs, t.root);
      assert WF(fs[i].1);
    }
  }

  /** `[t for t in targets if t.name != name]` */
  function OtherThan(targets: seq<Target>, name: string): (r: seq<Target>)
    ensures forall t :: t in r <==> t in targets && t.name != name
  {
    if |targets| == 0 then []
    else
      var rest := OtherThan(targets[1..], name);
      assert targets == [targets[0]] + targets[1..];
      (if targets[0].name != name then [targets[0]] else []) + rest
  }

  /** The kept targets stay in registry order: filtering a concatenation filters each part in turn. */
  lemma {:induction false} OtherThanAppend(xs: seq<Target>, ys: seq<Target>, name: string)
    ensures OtherThan(xs + ys, name) == OtherThan(xs, name) + OtherThan(ys, name)
  {
    if |xs| == 0 {
      assert xs + ys == ys;
    } else {
      var zs := xs + ys;
      assert zs[0] == xs[0] && zs[1..] == xs[1..] + ys;
      OtherThanAppend(xs[1..], ys, name);
      var head := if xs[0].name != name then [xs[0]] else [];
      assert OtherThan(zs, name) == head + (OtherThan(xs[1..], name) + OtherThan(ys, name));
      assert head + (OtherThan(xs[1..], name) + OtherThan(ys, name)) == (head + OtherThan(xs[1..], name)) + OtherThan(ys, name);
    }
  }

  // ---- Collection ----

  /**
   * The inner loop of `cmd_init` over one source's servers from entry `i` on:
   * a new name takes the source's entry, a known name merges it in.
   */
  function CollectServers(merged: Fields, servers: Fields, i: nat): Fields
    requires i <= |servers|
    decreases |servers| - i
  {
    if i == |servers| then merged
    else
      var name := servers[i].0;
      var conf := servers[i].1;
      var next := if !HasKey(merged, name) then SetKey(merged, name, conf)
        else SetKey(merged, name, AppendOnly(Get(merged, name), conf));
      CollectServers(next, servers, i + 1)
  }

  /** The collection loop is the append-only merge of the two server maps. */
  lemma {:induction false} CollectIsMerge(merged: Fields, servers: Fields, i: nat)
    requires i <= |servers|
    ensures CollectServers(merged, servers, i) == MergeEntries(merged, Obj(servers), i)
    decreases |servers| - i
  {
    if i < |servers| {
      var name := servers[i].0;
      var conf := servers[i].1;
      var next := if !HasKey(merged, name) then SetKey(merged, name, conf)
        else SetKey(merged, name, AppendOnly(Get(merged, name), conf));
      assert next == MergeKey(merged, name, conf);
      CollectIsMerge(next, servers, i + 1);
    }
  }

  lemma CollectOneIsAppendOnly(merged: Fields, servers: Fields)
    ensures Obj(CollectServers(merged, servers, 0)) == AppendOnly(Obj(merged), Obj(servers))
  {
    CollectIsMerge(merged, servers, 0);
  }

  /** The outer loop of `cmd_init`: the sources in order, each merged into the result so far. */
  function Collect(merged: Fields, sources: seq<Fields>): Fields
    decreases |sources|
  {
    if |sources| == 0 then merged
    else Collect(CollectServers(merged, sources[0], 0), sources[1..])
  }

  predicate AllWF(sources: seq<Fields>) {
    forall j :: 0 <= j < |sources| ==> WF(Obj(sources[j]))
  }

  /** The collected names are the central names and every source's names, each once. */
  lemma {:induction false} CollectNames(merged: Fields, sources: seq<Fields>)
    requires DistinctKeys(merged)
    requires forall j :: 0 <= j < |sources| ==> DistinctKeys(sources[j])
    ensures DistinctKeys(Collect(merged, sources))
    ensures forall k :: HasKey(Collect(merged, sources), k) <==>
      HasKey(merged, k) || exists j :: 0 <= j < |sources| && HasKey(sources[j], k)
    decreases |sources|
  {
    if |sources| > 0 {
      var next := CollectServers(merged, sources[0], 0);
      CollectOneIsAppendOnly(merged, sources[0]);
      MergeObjects(merged, sources[0]);
      MergedKeys(merged, sources[0]);
      var rest := sources[1..];
      assert forall j :: 1 <= j < |sources| ==> sources[j] == rest[j - 1];
      CollectNames(next, rest);
    }
  }

  /** Collection only ever adds: the central map survives into the result. */
  lemma {:induction false} CollectExtends(merged: Fields, sources: seq<Fields>)
    requires WF(Obj(merged)) && AllWF(sources)
    ensures WF(Obj(Collect(merged, sources)))
    ensures Extends(Obj(merged), Obj(Collect(merged, sources)))
    decreases |sources|
  {
    if |sources| == 0 {
      ExtendsReflexive(Obj(merged));
    } else {
      var next := CollectServers(merged, sources[0], 0);
      CollectOneIsAppendOnly(merged, sources[0]);
      NoRegression(Obj(merged), Obj(sources[0]));
      PreservesWF(Obj(merged), Obj(sources[0]));
      var rest := sources[1..];
      assert AllWF(rest) by {
        assert forall j :: 1 <= j < |sources| ==> sources[j] == rest[j - 1];
      }
      CollectExtends(next, rest);
      ExtendsTransitive(Obj(merged), Obj(next), Obj(Collect(next, rest)));
    }
  }

  lemma {:induction false} CollectSplit(merged: Fields, sources: seq<Fields>, k: nat)
    requires k <= |sources|
    ensures Collect(merged, sources) == Collect(Collect(merged, sources[..k]), sources[k..])
    decreases k
  {
    if k > 0 {
      var next := CollectServers(merged, sources[0], 0);
      assert sources[..k][1..] == sources[1..][..k - 1];
      assert sources[k..] == sources[1..][k - 1..];
      CollectSplit(next, sources[1..], k - 1);
    }
  }

  /**
   * Earlier sources win: whatever the first `k` sources made of the central
   * map — every key, every list prefix, every scalar — survives the later ones.
   */
  lemma EarlierSourcesWin(merged: Fields, sources: seq<Fields>, k: nat)
    requires WF(Obj(merged)) && AllWF(sources) && k <= |sources|
    ensures Extends(Obj(Collect(merged, sources[..k])), Obj(Collect(merged, sources)))
  {
    CollectSplit(merged, sources, k);
    assert AllWF(sources[..k]) by {
      assert forall j :: 0 <= j < k ==> sources[..k][j] == sources[j];
    }
    assert AllWF(sources[k..]) by {
      assert forall j :: 0 <= j < |sources| - k ==> sources[k..][j] == sources[k + j];
    }
    CollectExtends(merged, sources[..k]);
    CollectExtends(Collect(merged, sources[..k]), sources[k..]);
  }

  /** The server maps of the given targets, in order. */
  function ReadAll(ts: seq<Target>, disk: Disk): (r: seq<Fields>)
    ensures |r| == |ts| && forall j :: 0 <= j < |ts| ==> r[j] == ReadServers(ts[j], disk)
  {
    seq(|ts|, j requires 0 <= j < |ts| => ReadServers(ts[j], disk))
  }

  /** The sources `cmd_init` reads: the requested targets other than the central one. */
  function InitSources(targets: seq<Target>, names: seq<string>, home: string): seq<Target> {
    var central := ResolveCentral(targets, home);
    SubsetTargets(names, OtherThan(targets, central.name), targets).chosen
  }

  /** The merged server map `cmd_init` computes. */
  function InitMerged(targets: seq<Target>, disk: Disk, names: seq<string>, home: string): Fields {
    var central := ResolveCentral(targets, home);
    Collect(ReadServers(central, disk), ReadAll(InitSources(targets, names, home), disk))
  }

  /**
   * `cmd_init --apply`: the central file's root key is set to the merged map;
   * every other key of that file, and every other file, is left as it was.
   */
  function InitApply(targets: seq<Target>, disk: Disk, names: seq<string>, home: string): (r: Disk)
    ensures var central := ResolveCentral(targets, home);
      && central.path in r
      && HasKey(r[central.path], central.root)
      && Get(r[central.path], central.root) == Obj(InitMerged(targets, disk, names, home))
      && (forall k :: k != central.root && central.path in disk ==>
            (HasKey(r[central.path], k) <==> HasKey(disk[central.path], k)))
      && (forall k :: k != central.root && central.path in disk && HasKey(disk[central.path], k) ==>
            Get(r[central.path], k) == Get(disk[central.path], k))
      && (forall p :: p != central.path ==> (p in r <==> p in disk) && (p in disk ==> r[p] == disk[p]))
  {
    var central := ResolveCentral(targets, home);
    var obj := if central.path in disk then disk[central.path] else [];
    disk[central.path := SetKey(obj, central.root, Obj(InitMerged(targets, disk, names, home)))]
  }

  /**
   * The names `cmd_init` collects are the central names and the names of
   * every source it reads, and no others.
   */
  lemma InitNames(targets: seq<Target>, disk: Disk, names: seq<string>, home: string)
    requires DiskWF(disk)
    ensures var central := ResolveCentral(targets, home);
      var sources := InitSources(targets, names, home);
      forall k :: HasKey(InitMerged(targets, disk, names, home), k) <==>
        HasKey(ReadServers(central, disk), k)
        || exists j :: 0 <= j < |sources| && HasKey(ReadServers(sources[j], disk), k)
  {
    var central := ResolveCentral(targets, home);
    var sources := InitSources(targets, names, home);
    var read := ReadAll(sources, disk);
    ReadServersWF(central, disk);
    forall j | 0 <= j < |read| ensures DistinctKeys(read[j]) {
      ReadServersWF(sources[j], disk);
    }
    CollectNames(ReadServers(central, disk), read);
  }

  /** `cmd_init` never loses what the central file already held. */
  lemma InitKeepsCentral(targets: seq<Target>, disk: Disk, names: seq<string>, home: string)
    requires DiskWF(disk)
    ensures Extends(Obj(ReadServers(ResolveCentral(targets, home), disk)), Obj(InitMerged(targets, disk, names, home)))
  {
    var central := ResolveCentral(targets, home);
    var read := ReadAll(InitSources(targets, names, home), disk);
    ReadServersWF(central, disk);
    forall j | 0 <= j < |read| ensures WF(Obj(read[j])) {
      ReadServersWF(InitSources(targets, names, home)[j], disk);
    }
    CollectExtends(ReadServers(central, disk), read);
  }

  // ---- Distribution ----

  /** What `cmd_sync` does with one destination. */
  datatype Outcome =
    | Unchanged
    | Rewrite(doc: Fields)
    | Unsupported

  /** The destination file's top-level mapping; a missing file reads as empty. */
  function Document(t: Target, disk: Disk): Fields {
    if t.path in disk then disk[t.path] else []
  }

  /**
   * The document after the root key is made ready: `_ensure_root_json`
   * replaces a missing or non-mapping root with an empty mapping, while
   * `_ensure_root_toml` only adds a missing one.
   */
  function Prepared(t: Target, doc: Fields): (r: Fields)
    ensures HasKey(r, t.root)
  {
    if !HasKey(doc, t.root) || (t.kind == "json" && !Get(doc, t.root).Obj?) then SetKey(doc, t.root, Obj([]))
    else doc
  }

  /**
   * `cmd_sync` on one destination: merge the central map into the value at
   * the root key, and rewrite the file — only that key — when the merge
   * changed it.
   */
  function SyncTarget(t: Target, disk: Disk, central: Fields): (r: Outcome)
    ensures r.Unsupported? <==> !Readable(t)
    ensures r.Rewrite? ==>
      var doc := Document(t, disk);
      && HasKey(r.doc, t.root)
      && Get(r.doc, t.root) == AppendOnly(Get(Prepared(t, doc), t.root), Obj(central))
      && !Equiv(Get(r.doc, t.root), Get(Prepared(t, doc), t.root))
      && (forall k :: k != t.root ==> (HasKey(r.doc, k) <==> HasKey(doc, k)))
      && (forall k :: k != t.root && HasKey(doc, k) ==> Get(r.doc, k) == Get(doc, k))
    ensures r.Unchanged? ==>
      Equiv(AppendOnly(Get(Prepared(t, Document(t, disk)), t.root), Obj(central)), Get(Prepared(t, Document(t, disk)), t.root))
  {
    if !Readable(t) then Unsupported
    else
      var doc := Prepared(t, Document(t, disk));
      var current := Get(doc, t.root);
      var updated := AppendOnly(current, Obj(central));
      if Equiv(updated, current) then Unchanged
      else Rewrite(SetKey(doc, t.root, updated))
  }

  /** The value at a target's root key once `cmd_sync` has dealt with it. */
  function RootAfter(t: Target, disk: Disk, central: Fields): Tree
    requires Readable(t)
  {
    var o := SyncTarget(t, disk, central);
    if o.Rewrite? then Get(o.doc, t.root) else Get(Prepared(t, Document(t, disk)), t.root)
  }

  /** A merge that changes nothing met no new key: every incoming key was there already. */
  lemma UnchangedHasAll(fs: Fields, gs: Fields)
    requires DistinctKeys(fs) && DistinctKeys(gs)
    requires Equiv(AppendOnly(Obj(fs), Obj(gs)), Obj(fs))
    ensures forall k :: HasKey(gs, k) ==> HasKey(fs, k)
  {
    ObjectMerge(fs, gs);
    var r := AppendOnly(Obj(fs), Obj(gs)).fields;
    assert Keys(r) == Keys(fs);
  }

  lemma PreparedWF(t: Target, disk: Disk)
    requires DiskWF(disk)
    ensures WF(Get(Prepared(t, Document(t, disk)), t.root))
  {
    var doc := Document(t, disk);
    assert WF(Obj(doc));
    var p := Prepared(t, doc);
    if p == doc {
      var i := IndexOf(doc, t.root);
      assert WF(doc[i].1);
    }
  }

  /**
   * After `cmd_sync` a json destination holds every central server name under
   * its root key, whether it was rewritten or already had them.
   */
  lemma CentralNamesPresent(t: Target, disk: Disk, central: Fields)
    requires DiskWF(disk) && DistinctKeys(central) && t.kind == "json"
    ensures RootAfter(t, disk, central).Obj?
    ensures forall k :: HasKey(central, k) ==> HasKey(RootAfter(t, disk, central).fields, k)
  {
    var doc := Prepared(t, Document(t, disk));
    var current := Get(doc, t.root);
    PreparedWF(t, disk);
    assert current.Obj?;
    ObjectMerge(current.fields, central);
    if SyncTarget(t, disk, central).Unchanged? {
      UnchangedHasAll(current.fields, central);
    }
  }

  /**
   * No regression at a destination: the old servers keep their entries, list
   * items and scalars, and every other key of the file is kept.
   */
  lemma SyncKeepsExisting(t: Target, disk: Disk, central: Fields)
    requires DiskWF(disk) && WF(Obj(central)) && Readable(t)
    ensures Extends(Get(Prepared(t, Document(t, disk)), t.root), RootAfter(t, disk, central))
  {
    var current := Get(Prepared(t, Document(t, disk)), t.root);
    PreparedWF(t, disk);
    NoRegression(current, Obj(central));
    ExtendsReflexive(current);
  }

  /** Syncing a destination a second time finds nothing to do. */
  lemma SyncStable(t: Target, disk: Disk, central: Fields)
    requires DiskWF(disk) && WF(Obj(central))
    requires SyncTarget(t, disk, central).Rewrite?
    ensures SyncTarget(t, disk[t.path := SyncTarget(t, disk, central).doc], central).Unchanged?
  {
    var doc := Prepared(t, Document(t, disk));
    var current := Get(doc, t.root);
    var updated := AppendOnly(current, Obj(central));
    PreparedWF(t, disk);
    PreservesWF(current, Obj(central));
    var disk' := disk[t.path := SyncTarget(t, disk, central).doc];
    assert Document(t, disk') == SetKey(doc, t.root, updated);
    assert updated.Obj? == current.Obj?;
    assert Prepared(t, Document(t, disk')) == Document(t, disk');
    Stable(current, Obj(central));
    EquivReflexive(updated);
  }

  /**
   * The two formats part ways on a root key that holds something other than a
   * mapping: a toml destination is left alone, a json one has its root
   * replaced by the central servers.
   */
  lemma NonMappingRoot(t: Target, disk: Disk, central: Fields)
    requires DiskWF(disk) && DistinctKeys(central)
    requires t.path in disk && HasKey(disk[t.path], t.root) && !Get(disk[t.path], t.root).Obj?
    ensures t.kind == "toml" ==> SyncTarget(t, disk, central).Unchanged?
    ensures t.kind == "json" && central != [] ==>
      SyncTarget(t, disk, central).Rewrite? && Get(SyncTarget(t, disk, central).doc, t.root) == Obj(central)
  {
    if t.kind == "toml" {
      PreparedWF(t, disk);
      EquivReflexive(Get(disk[t.path], t.root));
    }
    if t.kind == "json" {
      MergeObjects([], central);
      NewEntriesAllNew(central);
    }
  }

  /**
   * The loop of `cmd_sync` over the destinations, in order: each rewrite is
   * written before the next destination is read, unless this is a dry run.
   * The result is the file system afterwards and the number of destinations
   * that changed.
   */
  function SyncAll(dests: seq<Target>, disk: Disk, central: Fields, dryRun: bool): (r: (Disk, nat))
    ensures dryRun ==> r.0 == disk
    ensures r.1 <= |dests|
    ensures forall p :: (forall i :: 0 <= i < |dests| ==> dests[i].path != p) ==>
      (p in r.0 <==> p in disk) && (p in disk ==> r.0[p] == disk[p])
  {
    if |dests| == 0 then (disk, 0)
    else
      var t := dests[0];
      assert forall i :: 1 <= i < |dests| ==> dests[1..][i - 1] == dests[i];
      match SyncTarget(t, disk, central)
      case Rewrite(doc) =>
        var rest := SyncAll(dests[1..], if dryRun then disk else disk[t.path := doc], central, dryRun);
        (rest.0, rest.1 + 1)
      case _ => SyncAll(dests[1..], disk, central, dryRun)
  }

  /** Two file systems that hold the same files at the given paths. */
  predicate AgreeOn(dests: seq<Target>, d1: Disk, d2: Disk) {
    forall i :: 0 <= i < |dests| ==>
      (dests[i].path in d1 <==> dests[i].path in d2)
      && (dests[i].path in d1 ==> d1[dests[i].path] == d2[dests[i].path])
  }

  predicate DistinctPaths(dests: seq<Target>) {
    forall i, j :: 0 <= i < j < |dests| ==> dests[i].path != dests[j].path
  }

  /** A destination whose file reads the same on two file systems is synced the same way on both. */
  lemma SameFileSameSync(t: Target, d1: Disk, d2: Disk, central: Fields)
    requires (t.path in d1 <==> t.path in d2) && (t.path in d1 ==> d1[t.path] == d2[t.path])
    ensures SyncTarget(t, d1, central) == SyncTarget(t, d2, central)
  {
    assert Document(t, d1) == Document(t, d2);
  }

  /** The later destinations still agree after the first one's file is written or left alone. */
  lemma AgreeOnRest(dests: seq<Target>, d1: Disk, d2: Disk, d2': Disk)
    requires |dests| > 0 && DistinctPaths(dests) && AgreeOn(dests, d1, d2)
    requires forall p :: p != dests[0].path ==> (p in d2' <==> p in d2) && (p in d2 ==> d2'[p] == d2[p])
    ensures DistinctPaths(dests[1..]) && AgreeOn(dests[1..], d1, d2')
  {
    var rest := dests[1..];
    assert forall i :: 0 <= i < |rest| ==> rest[i] == dests[i + 1] && rest[i].path != dests[0].path;
  }

  /**
   * When no two destinations share a file, a dry run reports exactly as many
   * changes as the real run makes.
   */
  lemma {:induction false} DryRunCountsChanges(dests: seq<Target>, d1: Disk, d2: Disk, central: Fields)
    requires DistinctPaths(dests) && AgreeOn(dests, d1, d2)
    ensures SyncAll(dests, d1, central, true).1 == SyncAll(dests, d2, central, false).1
    decreases |dests|
  {
    if |dests| > 0 {
      var t := dests[0];
      var rest := dests[1..];
      SameFileSameSync(t, d1, d2, central);
      match SyncTarget(t, d2, central)
      case Rewrite(doc) =>
        AgreeOnRest(dests, d1, d2, d2[t.path := doc]);
        DryRunCountsChanges(rest, d1, d2[t.path := doc], central);
      case _ =>
        AgreeOnRest(dests, d1, d2, d2);
        DryRunCountsChanges(rest, d1, d2, central);
    }
  }

  /** For each destination, whether a sync rewrites it, judged on the file system before the run. */
  function Rewritten(dests: seq<Target>, disk: Disk, central: Fields): (r: seq<bool>)
    ensures |r| == |dests| && forall i :: 0 <= i < |dests| ==> r[i] == SyncTarget(dests[i], disk, central).Rewrite?
  {
    seq(|dests|, i requires 0 <= i < |dests| => SyncTarget(dests[i], disk, central).Rewrite?)
  }

  /** The positions of the set flags. */
  function TrueAt(bs: seq<bool>): set<nat> {
    set i | 0 <= i < |bs| && bs[i]
  }

  /** How many flags are set. */
  function CountTrue(bs: seq<bool>): nat {
    |TrueAt(bs)|
  }

  /** Every member of a set of positions moved one place on. */
  function Shifted(s: set<nat>): set<nat> {
    set i | i in s :: i + 1
  }

  lemma ShiftedMember(s: set<nat>, x: nat)
    ensures 0 !in Shifted(s)
    ensures x + 1 in Shifted(s) <==> x in s
  {
    if x + 1 in Shifted(s) {
      var i :| i in s && x + 1 == i + 1;
    }
  }

  lemma {:induction false} ShiftedSize(s: set<nat>)
    ensures |Shifted(s)| == |s|
    decreases |s|
  {
    if s != {} {
      var x :| x in s;
      var s' := s - {x};
      ShiftedSize(s');
      forall y: nat ensures y in Shifted(s) <==> y in Shifted(s') + {x + 1} {
        ShiftedMember(s, 0);
        ShiftedMember(s', 0);
        if y > 0 {
          ShiftedMember(s, y - 1);
          ShiftedMember(s', y - 1);
        }
      }
      assert Shifted(s) == Shifted(s') + {x + 1};
      ShiftedMember(s', x);
    }
  }

  /** The flags set in a list are the first one, if set, and those set in the rest, moved on by one. */
  lemma CountTrueSplit(bs: seq<bool>)
    requires |bs| > 0
    ensures CountTrue(bs) == (if bs[0] then 1 else 0) + CountTrue(bs[1..])
  {
    var rest := bs[1..];
    var head: set<nat> := if bs[0] then {0} else {};
    forall i: nat ensures i in TrueAt(bs) <==> i in head + Shifted(TrueAt(rest)) {
      ShiftedMember(TrueAt(rest), 0);
      if i > 0 {
        ShiftedMember(TrueAt(rest), i - 1);
        if i < |bs| {
          assert bs[i] == rest[i - 1];
        }
      }
    }
    assert TrueAt(bs) == head + Shifted(TrueAt(rest));
    ShiftedSize(TrueAt(rest));
  }

  /**
   * What a real run leaves at a destination's file: the rewritten document
   * when the merge changed it, and otherwise the file as it was.
   */
  predicate Written(t: Target, o: Outcome, disk: Disk, after: Disk) {
    && (o.Rewrite? ==> t.path in after && after[t.path] == o.doc)
    && (!o.Rewrite? ==> (t.path in after <==> t.path in disk) && (t.path in disk ==> after[t.path] == disk[t.path]))
  }

  lemma WrittenAgain(t: Target, o: Outcome, disk: Disk, disk': Disk, after: Disk)
    requires (t.path in disk <==> t.path in disk') && (t.path in disk ==> disk[t.path] == disk'[t.path])
    requires Written(t, o, disk', after)
    ensures Written(t, o, disk, after)
  {
  }

  /** One step of the loop: the first destination is dealt with, then the rest on the file system as it then is. */
  lemma SyncAllStep(dests: seq<Target>, disk: Disk, central: Fields, dryRun: bool)
    requires |dests| > 0
    ensures var o := SyncTarget(dests[0], disk, central);
      var disk' := if o.Rewrite? && !dryRun then disk[dests[0].path := o.doc] else disk;
      var rest := SyncAll(dests[1..], disk', central, dryRun);
      SyncAll(dests, disk, central, dryRun) == (rest.0, (if o.Rewrite? then 1 else 0) + rest.1)
  {
    match SyncTarget(dests[0], disk, central)
    case Rewrite(doc) =>
    case _ =>
  }

  /** A later destination, with its own file, is written the same whether or not the first one was. */
  lemma WrittenLater(dests: seq<Target>, disk: Disk, disk': Disk, central: Fields, after: Disk, i: nat)
    requires 1 <= i < |dests| && dests[i].path != dests[0].path
    requires forall p :: p != dests[0].path ==> (p in disk' <==> p in disk) && (p in disk ==> disk'[p] == disk[p])
    requires Written(dests[i], SyncTarget(dests[i], disk', central), disk', after)
    ensures Written(dests[i], SyncTarget(dests[i], disk, central), disk, after)
  {
    SameFileSameSync(dests[i], disk', disk, central);
    WrittenAgain(dests[i], SyncTarget(dests[i], disk, central), disk, disk', after);
  }

  /**
   * A real run over destinations with distinct files: a destination the merge
   * changes holds the rewritten document afterwards, and any other is left
   * as it was.
   */
  lemma {:induction false} SyncAllWrites(dests: seq<Target>, disk: Disk, central: Fields)
    requires DistinctPaths(dests)
    ensures forall i :: 0 <= i < |dests| ==>
      Written(dests[i], SyncTarget(dests[i], disk, central), disk, SyncAll(dests, disk, central, false).0)
    decreases |dests|
  {
    if |dests| > 0 {
      var t := dests[0];
      var rest := dests[1..];
      var o := SyncTarget(t, disk, central);
      var disk' := if o.Rewrite? then disk[t.path := o.doc] else disk;
      SyncAllStep(dests, disk, central, false);
      AgreeOnRest(dests, disk, disk, disk');
      var after := SyncAll(rest, disk', central, false).0;
      SyncAllWrites(rest, disk', central);
      assert forall i :: 0 <= i < |rest| ==> rest[i] == dests[i + 1] && rest[i].path != t.path;
      assert Written(t, o, disk, after);
      forall i | 1 <= i < |dests|
        ensures Written(dests[i], SyncTarget(dests[i], disk, central), disk, after)
      {
        assert rest[i - 1] == dests[i];
        WrittenLater(dests, disk, disk', central, after, i);
      }
    }
  }

  /**
   * The count is the number of destinations the merge changes: always for a
   * dry run, and for a real run whenever no two destinations share a file.
   */
  lemma {:induction false} SyncAllCounts(dests: seq<Target>, disk: Disk, central: Fields, dryRun: bool)
    requires dryRun || DistinctPaths(dests)
    ensures SyncAll(dests, disk, central, dryRun).1 == CountTrue(Rewritten(dests, disk, central))
    decreases |dests|
  {
    var flags := Rewritten(dests, disk, central);
    if |dests| == 0 {
      assert TrueAt(flags) == {};
    } else {
      var t := dests[0];
      var rest := dests[1..];
      var o := SyncTarget(t, disk, central);
      var disk' := if o.Rewrite? && !dryRun then disk[t.path := o.doc] else disk;
      if !dryRun {
        AgreeOnRest(dests, disk, disk, disk');
      }
      SyncAllStep(dests, disk, central, dryRun);
      SyncAllCounts(rest, disk', central, dryRun);
      forall i | 0 <= i < |rest|
        ensures Rewritten(rest, disk', central)[i] == flags[1..][i]
      {
        assert rest[i] == dests[i + 1];
        if !dryRun {
          assert rest[i].path != t.path;
        }
        SameFileSameSync(rest[i], disk', disk, central);
      }
      assert Rewritten(rest, disk', central) == flags[1..];
      CountTrueSplit(flags);
    }
  }

  /**
   * After a real run a json destination the loop reached holds every central
   * server under its root key, whether it was rewritten or already had them.
   */
  lemma JsonHoldsCentral(t: Target, disk: Disk, central: Fields, after: Disk)
    requires DiskWF(disk) && DistinctKeys(central) && t.kind == "json"
    requires Written(t, SyncTarget(t, disk, central), disk, after)
    ensures forall k :: HasKey(central, k) ==>
      && t.path in after && HasKey(after[t.path], t.root) && Get(after[t.path], t.root).Obj?
      && HasKey(Get(after[t.path], t.root).fields, k)
  {
    CentralNamesPresent(t, disk, central);
    var o := SyncTarget(t, disk, central);
    if !o.Rewrite? && central != [] {
      var doc := Document(t, disk);
      var root := Get(Prepared(t, doc), t.root);
      assert HasKey(root.fields, central[0].0) by { assert Keys(central)[0] == central[0].0; }
      if Prepared(t, doc) != doc {
        assert false;
      }
    }
  }

  /** The destinations `cmd_sync` visits: the requested targets other than the central one. */
  function SyncDests(targets: seq<Target>, names: seq<string>, home: string): seq<Target> {
    var central := ResolveCentral(targets, home);
    SubsetTargets(names, OtherThan(targets, central.name), targets).chosen
  }

  /** `cmd_sync`: the file system afterwards and the number of destinations that changed. */
  function SyncCommand(targets: seq<Target>, disk: Disk, names: seq<string>, home: string, dryRun: bool): (r: (Disk, nat))
    ensures dryRun ==> r.0 == disk
    ensures forall p :: (forall t :: t in SyncDests(targets, names, home) ==> t.path != p) ==>
      (p in r.0 <==> p in disk) && (p in disk ==> r.0[p] == disk[p])
  {
    var central := ResolveCentral(targets, home);
    var dests := SyncDests(targets, names, home);
    if |dests| == 0 then (disk, 0)
    else SyncAll(dests, disk, ReadServers(central, disk), dryRun)
  }

  /**
   * `cmd_sync`'s effect: the count is the number of destinations the merge
   * changes, and a real run leaves each changed destination rewritten and
   * every other one as it was. A real run needs the destinations' files to be
   * distinct, since one written file would otherwise be read again.
   */
  lemma SyncCommandEffect(targets: seq<Target>, disk: Disk, names: seq<string>, home: string, dryRun: bool)
    requires dryRun || DistinctPaths(SyncDests(targets, names, home))
    ensures var dests := SyncDests(targets, names, home);
      var central := ReadServers(ResolveCentral(targets, home), disk);
      var r := SyncCommand(targets, disk, names, home, dryRun);
      && r.1 == CountTrue(Rewritten(dests, disk, central))
      && (!dryRun ==> forall i :: 0 <= i < |dests| ==> Written(dests[i], SyncTarget(dests[i], disk, central), disk, r.0))
  {
    var dests := SyncDests(targets, names, home);
    var central := ReadServers(ResolveCentral(targets, home), disk);
    SyncAllCounts(dests, disk, central, dryRun);
    if !dryRun {
      SyncAllWrites(dests, disk, central);
    }
  }

  /** After a real `cmd_sync` every json destination holds every central server under its root key. */
  lemma SyncCommandCentralPresent(targets: seq<Target>, disk: Disk, names: seq<string>, home: string)
    requires DiskWF(disk) && DistinctPaths(SyncDests(targets, names, home))
    ensures var dests := SyncDests(targets, names, home);
      var central := ReadServers(ResolveCentral(targets, home), disk);
      var after := SyncCommand(targets, disk, names, home, false).0;
      forall i, k :: 0 <= i < |dests| && dests[i].kind == "json" && HasKey(central, k) ==>
        && dests[i].path in after && HasKey(after[dests[i].path], dests[i].root)
        && Get(after[dests[i].path], dests[i].root).Obj?
        && HasKey(Get(after[dests[i].path], dests[i].root).fields, k)
  {
    var dests := SyncDests(targets, names, home);
    var central := ReadServers(ResolveCentral(targets, home), disk);
    var after := SyncCommand(targets, disk, names, home, false).0;
    ReadServersWF(ResolveCentral(targets, home), disk);
    SyncCommandEffect(targets, disk, names, home, false);
    forall i | 0 <= i < |dests| && dests[i].kind == "json"
      ensures forall k :: HasKey(central, k) ==>
        && dests[i].path in after && HasKey(after[dests[i].path], dests[i].root)
        && Get(after[dests[i].path], dests[i].root).Obj?
        && HasKey(Get(after[dests[i].path], dests[i].root).fields, k)
    {
      JsonHoldsCentral(dests[i], disk, central, after);
    }
  }

  /**
   * The shared server of the sync test: the destination's own argument stays
   * first and the central one follows it.
   */
  lemma SharedArgsExample()
    ensures var mine := Obj([("command", Str("python")), ("args", Arr([Str("cursor")]))]);
      var theirs := Obj([("command", Str("python")), ("args", Arr([Str("central")]))]);
      AppendOnly(mine, theirs) == Obj([("command", Str("python")), ("args", Arr([Str("cursor"), Str("central")]))])
  {
    TwoKeyMerge("command", Str("python"), Str("python"), "args", Arr([Str("cursor")]), Arr([Str("central")]));
    ArgsExample();
  }

  lemma ArgsExample()
    ensures AppendOnly(Arr([Str("cursor")]), Arr([Str("central")])) == Arr([Str("cursor"), Str("central")])
  {
    assert "cursor"[1] != "central"[1];
    DistinctSingletons(Str("cursor"), Str("central"));
  }

  /**
   * The sync test: a destination holding only `shared` gains `new`, and the
   * shared server's arguments keep the destination's first.
   */
  lemma SyncTestExample()
    ensures var shared := Obj([("command", Str("python")), ("args", Arr([Str("cursor")]))]);
      var centralShared := Obj([("command", Str("python")), ("args", Arr([Str("central")]))]);
      var added := Obj([("command", Str("python")), ("args", Arr([Str("added")]))]);
      AppendOnly(Obj([("shared", shared)]), Obj([("shared", centralShared), ("new", added)]))
      == Obj([("shared", Obj([("command", Str("python")), ("args", Arr([Str("cursor"), Str("central")]))])), ("new", added)])
  {
    var shared := Obj([("command", Str("python")), ("args", Arr([Str("cursor")]))]);
    var centralShared := Obj([("command", Str("python")), ("args", Arr([Str("central")]))]);
    var added := Obj([("command", Str("python")), ("args", Arr([Str("added")]))]);
    SharedAndNewMerge("shared", shared, centralShared, "new", added);
    SharedArgsExample();
  }

}
