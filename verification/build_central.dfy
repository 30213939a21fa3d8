/**
 * `build` in src/mcpset/build_central_from_existing.py: the server maps of a
 * fixed list of sources (cursor, claude_desktop, codex) are folded into one
 * central map, with a provenance record per server.
 *
 * Unlike the append-only merge, the fold looks only one level into a server
 * entry: a key both sides hold as mappings gains the missing sub-keys and
 * nothing deeper is merged.
 */
module BuildCentral {
  import opened ConfigTree
  import opened AppendOnlyMerge
  import Sync

  /** One source: its name, its server map, and the path it was read from. */
  datatype Source = Source(name: string, servers: Fields, path: string)

  /**
   * `provenance[name]`: the source that introduced the server, every source
   * that named it, and what each later source added. `addedArrayItems` maps
   * a key to a list (`Arr`) of the items added under it.
   */
  datatype Provenance = Provenance(
    introducedBy: string,
    sources: seq<string>,
    sourcePaths: map<string, string>,
    addedKeys: seq<string>,
    addedEnvKeys: seq<string>,
    addedArrayItems: Fields)

  /** `prov["added_array_items"].setdefault(k, []).extend(items)` */
  function LogItems(log: Fields, k: string, items: seq<Tree>): (r: Fields)
    ensures HasKey(r, k)
  {
    SetKey(log, k, Arr((if HasKey(log, k) && Get(log, k).Arr? then Get(log, k).items else []) + items))
  }

  /** The list-valued entries of a mapping, each with a copy of its list. */
  function ListEntries(fs: Fields): (r: Fields)
    ensures |r| <= |fs|
  {
    if |fs| == 0 then []
    else (if fs[0].1.Arr? then [fs[0]] else []) + ListEntries(fs[1..])
  }

  /** The record made when a source names a server for the first time. */
  function Introduce(src: Source, conf: Tree): Provenance {
    Provenance(
      src.name,
      [src.name],
      map[src.name := src.path],
      if conf.Obj? then Keys(conf.fields) else [],
      if conf.Obj? && HasKey(conf.fields, "env") && Get(conf.fields, "env").Obj?
      then Keys(Get(conf.fields, "env").fields) else [],
      if conf.Obj? then ListEntries(conf.fields) else [])
  }

  // ---- One server entry ----

  /** The server entry and its provenance record while a later source's entry is folded in. */
  datatype Step = Step(entry: Fields, prov: Provenance)

  /** A key the entry lacks: it takes the source's value, and the record notes it. */
  function NewTopKey(entry: Fields, k: string, v: Tree, p: Provenance): Step {
    var p1 := p.(addedKeys := p.addedKeys + [k]);
    var p2 := if k == "env" && v.Obj? then p1.(addedEnvKeys := p1.addedEnvKeys + Keys(v.fields)) else p1;
    var p3 := if v.Arr? then p2.(addedArrayItems := LogItems(p2.addedArrayItems, k, v.items)) else p2;
    Step(SetKey(entry, k, v), p3)
  }

  /** `for ek in added: sub[ek] = v[ek]` */
  function SetEach(sub: Fields, es: Fields): Fields
    decreases |es|
  {
    if |es| == 0 then sub else SetEach(SetKey(sub, es[0].0, es[0].1), es[1..])
  }

  /**
   * The generic sub-mapping loop: every sub-key of `v` from entry `i` on that
   * `sub` lacks is added, and noted in `log` as `k.subkey`.
   */
  function AddSubKeys(sub: Fields, v: Fields, i: nat, k: string, log: seq<string>): (Fields, seq<string>)
    requires i <= |v|
    decreases |v| - i
  {
    if i == |v| then (sub, log)
    else if HasKey(sub, v[i].0) then AddSubKeys(sub, v, i + 1, k, log)
    else AddSubKeys(SetKey(sub, v[i].0, v[i].1), v, i + 1, k, log + [k + "." + v[i].0])
  }

  /**
   * A key the entry already has: `env` gains its missing variables, two lists
   * gain the source's unseen items, two other mappings gain their missing
   * sub-keys; anything else stays.
   */
  function SharedTopKey(entry: Fields, k: string, v: Tree, p: Provenance): Step
    requires HasKey(entry, k)
  {
    var mk := Get(entry, k);
    if k == "env" && v.Obj? && mk.Obj? then
      var added := NewEntries(v.fields, Keys(mk.fields));
      if |added| > 0 then
        Step(SetKey(entry, k, Obj(SetEach(mk.fields, added))), p.(addedEnvKeys := p.addedEnvKeys + Keys(added)))
      else Step(entry, p)
    else if v.Arr? && mk.Arr? then
      var toAdd := Unseen(v.items, mk.items);
      if |toAdd| > 0 then
        Step(SetKey(entry, k, Arr(mk.items + toAdd)), p.(addedArrayItems := LogItems(p.addedArrayItems, k, toAdd)))
      else Step(entry, p)
    else if v.Obj? && mk.Obj? then
      var r := AddSubKeys(mk.fields, v.fields, 0, k, p.addedKeys);
      Step(SetKey(entry, k, Obj(r.0)), p.(addedKeys := r.1))
    else Step(entry, p)
  }

  /** The loop over a later source's entry for a known server, from entry `i` of `conf` on. */
  function MergeEntryFrom(entry: Fields, conf: Fields, i: nat, p: Provenance): (r: Step)
    requires i <= |conf|
    decreases |conf| - i
    ensures r.prov.introducedBy == p.introducedBy && r.prov.sources == p.sources
      && r.prov.sourcePaths == p.sourcePaths
  {
    if i == |conf| then Step(entry, p)
    else
      var k := conf[i].0;
      var v := conf[i].1;
      var s := if HasKey(entry, k) then SharedTopKey(entry, k, v, p) else NewTopKey(entry, k, v, p);
      MergeEntryFrom(s.entry, conf, i + 1, s.prov)
  }

  // ---- What the entry loop computes ----

  /** The one-level merge of two values at a shared key. */
  function OneLevel(av: Tree, bv: Tree): (r: Tree)
    ensures r.Obj? == av.Obj? && r.Arr? == av.Arr?
  {
    if av.Obj? && bv.Obj? then Obj(av.fields + NewEntries(bv.fields, Keys(av.fields)))
    else if av.Arr? && bv.Arr? then Arr(ListUnion(av.items, bv.items))
    else av
  }

  /** The entry's own keys, in place, each one-level merged with the source's value when shared. */
  function UpdateOneLevel(fs: Fields, gs: Fields): Fields {
    seq(|fs|, i requires 0 <= i < |fs| =>
      (fs[i].0, if HasKey(gs, fs[i].0) then OneLevel(fs[i].1, Get(gs, fs[i].0)) else fs[i].1))
  }

  lemma {:induction false} SetEachAppends(sub: Fields, es: Fields)
    requires DistinctKeys(sub + es)
    ensures SetEach(sub, es) == sub + es
    decreases |es|
  {
    if |es| > 0 {
      var k := es[0].0;
      assert !HasKey(sub, k) by {
        forall j | 0 <= j < |sub| ensures Keys(sub)[j] != k {
          assert (sub + es)[j] == sub[j] && (sub + es)[|sub|] == es[0];
        }
      }
      assert SetKey(sub, k, es[0].1) == sub + [es[0]];
      assert sub + es == (sub + [es[0]]) + es[1..];
      SetEachAppends(sub + [es[0]], es[1..]);
    }
  }

  /** The sub-key loop adds exactly the source's missing sub-keys, in source order, after the existing ones. */
  lemma {:induction false} AddSubKeysSpec(sub: Fields, v: Fields, i: nat, k: string, log: seq<string>)
    requires i <= |v| && DistinctKeys(sub) && DistinctKeys(v)
    ensures AddSubKeys(sub, v, i, k, log).0 == sub + NewEntries(v[i..], Keys(sub))
    decreases |v| - i
  {
    if i == |v| {
      assert NewEntries(v[i..], Keys(sub)) == [];
    } else {
      var vs := v[i..];
      var key := v[i].0;
      assert vs[0] == v[i] && vs[1..] == v[i + 1..];
      if HasKey(sub, key) {
        AddSubKeysSpec(sub, v, i + 1, k, log);
        NewEntriesSkip(vs, Keys(sub));
      } else {
        NoLaterDuplicate(v, i);
        var sub' := sub + [(key, v[i].1)];
        AppendNewKey(sub, key, v[i].1);
        assert AddSubKeys(sub, v, i, k, log) == AddSubKeys(sub', v, i + 1, k, log + [k + "." + key]);
        AddSubKeysSpec(sub', v, i + 1, k, log + [k + "." + key]);
        NewKeyEntries(sub, vs);
        AppendAssoc(sub, vs[0], NewEntries(vs[1..], Keys(sub')));
      }
    }
  }

  /** An entry under a known key is not new. */
  lemma NewEntriesSkip(vs: Fields, ks: seq<string>)
    requires |vs| > 0 && vs[0].0 in ks
    ensures NewEntries(vs, ks) == NewEntries(vs[1..], ks)
  {
    assert NewEntries(vs, ks) == [] + NewEntries(vs[1..], ks);
  }

  lemma AppendAssoc(a: Fields, x: (string, Tree), b: Fields)
    ensures (a + [x]) + b == a + ([x] + b)
  {
  }

  /** Setting a key a mapping lacks appends it, and the keys stay distinct. */
  lemma AppendNewKey(fs: Fields, k: string, x: Tree)
    requires DistinctKeys(fs) && !HasKey(fs, k)
    ensures SetKey(fs, k, x) == fs + [(k, x)]
    ensures Keys(fs + [(k, x)]) == Keys(fs) + [k]
    ensures DistinctKeys(fs + [(k, x)])
  {
    forall j | 0 <= j < |fs| ensures fs[j].0 != k { assert Keys(fs)[j] == fs[j].0; }
    assert Keys(fs + [(k, x)]) == Keys(fs) + [k];
  }

  /** Replacing the value of a key keeps a well-formed mapping well formed. */
  lemma ReplaceWF(fs: Fields, k: string, x: Tree)
    requires WF(Obj(fs)) && HasKey(fs, k) && WF(x)
    ensures Keys(SetKey(fs, k, x)) == Keys(fs) && WF(Obj(SetKey(fs, k, x)))
  {
    var r := SetKey(fs, k, x);
    forall j | 0 <= j < |fs| ensures r[j].0 == fs[j].0 {
      assert Keys(r)[j] == Keys(fs)[j];
    }
    forall t | 0 <= t < |r| ensures WF(r[t].1) {
      GetAt(r, t);
      if r[t].0 != k {
        GetAt(fs, t);
      }
    }
  }

  /** New sub-entries from a mapping with distinct keys keep the whole sub-mapping free of duplicates. */
  lemma AddMissingDistinct(sub: Fields, v: Fields)
    requires DistinctKeys(sub) && DistinctKeys(v)
    ensures DistinctKeys(sub + NewEntries(v, Keys(sub)))
  {
    MergedKeys(sub, v);
    var up := UpdateShared(sub, v);
    var ne := NewEntries(v, Keys(sub));
    forall i, j | 0 <= i < j < |sub + ne| ensures (sub + ne)[i].0 != (sub + ne)[j].0 {
      assert (up + ne)[i].0 == (sub + ne)[i].0 && (up + ne)[j].0 == (sub + ne)[j].0;
    }
  }

  /** At a shared key, the literal branches compute the one-level merge of the two values. */
  lemma SharedTopKeyValue(entry: Fields, k: string, v: Tree, p: Provenance)
    requires HasKey(entry, k) && WF(Get(entry, k)) && WF(v)
    ensures var s := SharedTopKey(entry, k, v, p);
      s.entry == SetKey(entry, k, OneLevel(Get(entry, k), v))
  {
    var mk := Get(entry, k);
    if v.Obj? && mk.Obj? {
      var added := NewEntries(v.fields, Keys(mk.fields));
      AddMissingDistinct(mk.fields, v.fields);
      if k == "env" {
        SetEachAppends(mk.fields, added);
        if |added| == 0 {
          assert mk.fields + added == mk.fields;
          SetKeySame(entry, k);
        }
      } else {
        AddSubKeysSpec(mk.fields, v.fields, 0, k, p.addedKeys);
        assert v.fields[0..] == v.fields;
      }
    } else if v.Arr? && mk.Arr? {
      if |Unseen(v.items, mk.items)| == 0 {
        assert mk.items + [] == mk.items;
        SetKeySame(entry, k);
      }
    } else {
      SetKeySame(entry, k);
    }
  }

  /** Setting a key to the value it already has changes nothing. */
  lemma SetKeySame(fs: Fields, k: string)
    requires HasKey(fs, k)
    ensures SetKey(fs, k, Get(fs, k)) == fs
  {
  }

  lemma SharedOneLevelStep(out: Fields, bs: Fields)
    requires DistinctKeys(out) && |bs| > 0
    requires HasKey(out, bs[0].0) && !HasKey(bs[1..], bs[0].0)
    ensures var k := bs[0].0;
      UpdateOneLevel(SetKey(out, k, OneLevel(Get(out, k), bs[0].1)), bs[1..]) == UpdateOneLevel(out, bs)
  {
    var k := bs[0].0;
    var out' := SetKey(out, k, OneLevel(Get(out, k), bs[0].1));
    assert HasKey(bs, k) && IndexOf(bs, k) == 0 by { IndexOfFirst(bs, k, 0); }
    assert |out'| == |out| && forall j :: 0 <= j < |out| ==> out'[j].0 == out[j].0 by {
      assert Keys(out') == Keys(out);
      forall j | 0 <= j < |out| ensures out'[j].0 == out[j].0 {
        assert Keys(out')[j] == Keys(out)[j];
      }
    }
    forall j | 0 <= j < |out| ensures UpdateOneLevel(out', bs[1..])[j] == UpdateOneLevel(out, bs)[j] {
      var key := out[j].0;
      GetAt(out, j);
      GetAt(out', j);
      if key != k {
        DropHead(bs, key);
      }
    }
  }

  lemma NewOneLevelStep(out: Fields, bs: Fields)
    requires |bs| > 0 && !HasKey(out, bs[0].0) && !HasKey(bs[1..], bs[0].0)
    ensures UpdateOneLevel(out + [bs[0]], bs[1..]) == UpdateOneLevel(out, bs) + [bs[0]]
    ensures NewEntries(bs, Keys(out)) == [bs[0]] + NewEntries(bs[1..], Keys(out + [bs[0]]))
  {
    var lhs := UpdateOneLevel(out + [bs[0]], bs[1..]);
    var rhs := UpdateOneLevel(out, bs) + [bs[0]];
    forall j | 0 <= j < |out| ensures lhs[j] == rhs[j] {
      assert Keys(out)[j] == out[j].0;
      DropHead(bs, out[j].0);
    }
    assert lhs[|out|] == rhs[|out|];
    NewKeyEntries(out, bs);
  }

  /**
   * The entry loop, run over the source's entries from `i` on, computes the
   * entry's own keys one-level merged in place followed by the source's new keys.
   */
  lemma {:induction false} MergeEntrySpec(out: Fields, conf: Fields, i: nat, p: Provenance)
    requires i <= |conf| && WF(Obj(out)) && WF(Obj(conf))
    ensures MergeEntryFrom(out, conf, i, p).entry
      == UpdateOneLevel(out, conf[i..]) + NewEntries(conf[i..], Keys(out))
    decreases |conf| - i
  {
    if i == |conf| {
      assert UpdateOneLevel(out, conf[i..]) == out;
    } else {
      var k := conf[i].0;
      var bv := conf[i].1;
      var s := if HasKey(out, k) then SharedTopKey(out, k, bv, p) else NewTopKey(out, k, bv, p);
      assert MergeEntryFrom(out, conf, i, p) == MergeEntryFrom(s.entry, conf, i + 1, s.prov);
      if HasKey(out, k) {
        SharedStep(out, conf, i, p);
      } else {
        NewStep(out, conf, i, p);
      }
      MergeEntrySpec(s.entry, conf, i + 1, s.prov);
    }
  }

  /** One shared key of the entry loop: the reference moves on by one entry. */
  lemma SharedStep(out: Fields, conf: Fields, i: nat, p: Provenance)
    requires i < |conf| && WF(Obj(out)) && WF(Obj(conf)) && HasKey(out, conf[i].0)
    ensures var e := SharedTopKey(out, conf[i].0, conf[i].1, p).entry;
      && WF(Obj(e))
      && UpdateOneLevel(e, conf[i + 1..]) + NewEntries(conf[i + 1..], Keys(e))
        == UpdateOneLevel(out, conf[i..]) + NewEntries(conf[i..], Keys(out))
  {
    var k := conf[i].0;
    var bv := conf[i].1;
    var bs := conf[i..];
    assert WF(bv);
    assert bs[0] == conf[i] && bs[1..] == conf[i + 1..];
    NoLaterDuplicate(conf, i);
    GetAt(out, IndexOf(out, k));
    SharedTopKeyValue(out, k, bv, p);
    OneLevelWF(Get(out, k), bv);
    ReplaceWF(out, k, OneLevel(Get(out, k), bv));
    SharedOneLevelStep(out, bs);
    NewEntriesSkip(bs, Keys(out));
  }

  /** One new key of the entry loop: the reference moves on by one entry. */
  lemma NewStep(out: Fields, conf: Fields, i: nat, p: Provenance)
    requires i < |conf| && WF(Obj(out)) && WF(Obj(conf)) && !HasKey(out, conf[i].0)
    ensures var e := NewTopKey(out, conf[i].0, conf[i].1, p).entry;
      && WF(Obj(e))
      && UpdateOneLevel(e, conf[i + 1..]) + NewEntries(conf[i + 1..], Keys(e))
        == UpdateOneLevel(out, conf[i..]) + NewEntries(conf[i..], Keys(out))
  {
    var k := conf[i].0;
    var bv := conf[i].1;
    var bs := conf[i..];
    assert WF(bv);
    assert bs[0] == conf[i] && bs[1..] == conf[i + 1..];
    NoLaterDuplicate(conf, i);
    AppendNewKey(out, k, bv);
    var e := out + [(k, bv)];
    assert WF(Obj(e)) by {
      forall t | 0 <= t < |e| ensures WF(e[t].1) {
        if t < |out| { assert e[t] == out[t]; }
      }
    }
    NewOneLevelStep(out, bs);
    assert (UpdateOneLevel(out, bs) + [bs[0]]) + NewEntries(bs[1..], Keys(e))
      == UpdateOneLevel(out, bs) + ([bs[0]] + NewEntries(bs[1..], Keys(e)));
  }

  lemma OneLevelWF(av: Tree, bv: Tree)
    requires WF(av) && WF(bv)
    ensures WF(OneLevel(av, bv))
  {
    if av.Obj? && bv.Obj? {
      AddMissingDistinct(av.fields, bv.fields);
      var ne := NewEntries(bv.fields, Keys(av.fields));
      NewEntriesFacts(bv.fields, Keys(av.fields));
      var r := av.fields + ne;
      forall t | 0 <= t < |r| ensures WF(r[t].1) {
        if t >= |av.fields| {
          var key := ne[t - |av.fields|].0;
          var j := IndexOf(bv.fields, key);
          assert WF(bv.fields[j].1);
        }
      }
    } else if av.Arr? && bv.Arr? {
      var r := ListUnion(av.items, bv.items);
      forall t | 0 <= t < |r| ensures WF(r[t]) {
        if t >= |av.items| {
          assert r[t] in bv.items;
        } else {
          assert r[t] == av.items[t];
        }
      }
    }
  }

  // ---- Where the one-level fold and the deep merge agree, and where not ----

  /** No key shared by the two sub-mappings holds two mappings or two lists. */
  predicate NoDeepClash(fs: Fields, gs: Fields) {
    forall i :: 0 <= i < |fs| && HasKey(gs, fs[i].0) ==>
      !(fs[i].1.Obj? && Get(gs, fs[i].0).Obj?) && !(fs[i].1.Arr? && Get(gs, fs[i].0).Arr?)
  }

  /** Every key the entry and the source share as two mappings has no deeper clash. */
  predicate Shallow(e: Fields, conf: Fields) {
    forall i :: 0 <= i < |e| && HasKey(conf, e[i].0) && e[i].1.Obj? && Get(conf, e[i].0).Obj? ==>
      NoDeepClash(e[i].1.fields, Get(conf, e[i].0).fields)
  }

  lemma OneLevelAgrees(av: Tree, bv: Tree)
    requires WF(av) && WF(bv)
    requires av.Obj? && bv.Obj? ==> NoDeepClash(av.fields, bv.fields)
    ensures OneLevel(av, bv) == AppendOnly(av, bv)
  {
    if av.Obj? && bv.Obj? {
      var fs := av.fields;
      var gs := bv.fields;
      MergeObjects(fs, gs);
      forall i | 0 <= i < |fs| ensures UpdateShared(fs, gs)[i] == fs[i] {
        if HasKey(gs, fs[i].0) {
          assert AppendOnly(fs[i].1, Get(gs, fs[i].0)) == fs[i].1;
        }
      }
      assert UpdateShared(fs, gs) == fs;
    }
  }

  /**
   * When nothing clashes below the first level, folding a later source's
   * entry into a known server gives exactly the append-only merge.
   */
  lemma EntryAgreesWithMerge(e: Fields, conf: Fields, p: Provenance)
    requires WF(Obj(e)) && WF(Obj(conf)) && Shallow(e, conf)
    ensures Obj(MergeEntryFrom(e, conf, 0, p).entry) == AppendOnly(Obj(e), Obj(conf))
  {
    MergeEntrySpec(e, conf, 0, p);
    MergeObjects(e, conf);
    assert conf[0..] == conf;
    UpdatesAgree(e, conf);
  }

  lemma UpdatesAgree(e: Fields, conf: Fields)
    requires WF(Obj(e)) && WF(Obj(conf)) && Shallow(e, conf)
    ensures UpdateOneLevel(e, conf) == UpdateShared(e, conf)
  {
    forall i | 0 <= i < |e| ensures UpdateOneLevel(e, conf)[i] == UpdateShared(e, conf)[i] {
      if HasKey(conf, e[i].0) {
        var j := IndexOf(conf, e[i].0);
        assert WF(e[i].1) && WF(conf[j].1);
        OneLevelAgrees(e[i].1, conf[j].1);
      }
    }
  }

  /**
   * Three levels deep the two part ways: a server whose `a.b` mapping gains a
   * key from the later source keeps its old `a.b` in the fold, while the
   * append-only merge adds the key.
   */
  lemma DeepMappingDiverges()
    ensures var e := [("a", Obj([("b", Obj([("c", Int(1))]))]))];
      var conf := [("a", Obj([("b", Obj([("d", Int(2))]))]))];
      && MergeEntryFrom(e, conf, 0, Introduce(Source("cursor", [], ""), Null)).entry == e
      && AppendOnly(Obj(e), Obj(conf)) == Obj([("a", Obj([("b", Obj([("c", Int(1)), ("d", Int(2))]))]))])
  {
    DeepFold();
    DeepMerge();
  }

  lemma DeepFold()
    ensures var e := [("a", Obj([("b", Obj([("c", Int(1))]))]))];
      var conf := [("a", Obj([("b", Obj([("d", Int(2))]))]))];
      MergeEntryFrom(e, conf, 0, Introduce(Source("cursor", [], ""), Null)).entry == e
  {
    var e := [("a", Obj([("b", Obj([("c", Int(1))]))]))];
    var conf := [("a", Obj([("b", Obj([("d", Int(2))]))]))];
    var p := Introduce(Source("cursor", [], ""), Null);
    var inner := [("b", Obj([("c", Int(1))]))];
    var incoming := [("b", Obj([("d", Int(2))]))];
    assert Keys(e) == ["a"] && Keys(inner) == ["b"];
    assert HasKey(e, "a") && Get(e, "a") == Obj(inner);
    assert AddSubKeys(inner, incoming, 0, "a", p.addedKeys).0 == inner;
    var s := SharedTopKey(e, "a", Obj(incoming), p);
    SetKeySame(e, "a");
    assert s.entry == e;
  }

  lemma DeepMerge()
    ensures var e := [("a", Obj([("b", Obj([("c", Int(1))]))]))];
      var conf := [("a", Obj([("b", Obj([("d", Int(2))]))]))];
      AppendOnly(Obj(e), Obj(conf)) == Obj([("a", Obj([("b", Obj([("c", Int(1)), ("d", Int(2))]))]))])
  {
    SameKeyMerge("a", Obj([("b", Obj([("c", Int(1))]))]), Obj([("b", Obj([("d", Int(2))]))]));
    SameKeyMerge("b", Obj([("c", Int(1))]), Obj([("d", Int(2))]));
    DisjointMerge("c", Int(1), "d", Int(2));
  }

  /**
   * Lists inside a sub-mapping are not merged by the fold, while the
   * append-only merge extends them.
   */
  lemma NestedListDiverges()
    ensures var e := [("a", Obj([("x", Arr([Int(1)]))]))];
      var conf := [("a", Obj([("x", Arr([Int(2)]))]))];
      && MergeEntryFrom(e, conf, 0, Introduce(Source("cursor", [], ""), Null)).entry == e
      && AppendOnly(Obj(e), Obj(conf)) == Obj([("a", Obj([("x", Arr([Int(1), Int(2)]))]))])
  {
    ListFold();
    ListMerge();
  }

  lemma ListFold()
    ensures var e := [("a", Obj([("x", Arr([Int(1)]))]))];
      var conf := [("a", Obj([("x", Arr([Int(2)]))]))];
      MergeEntryFrom(e, conf, 0, Introduce(Source("cursor", [], ""), Null)).entry == e
  {
    var e := [("a", Obj([("x", Arr([Int(1)]))]))];
    var conf := [("a", Obj([("x", Arr([Int(2)]))]))];
    var p := Introduce(Source("cursor", [], ""), Null);
    var inner := [("x", Arr([Int(1)]))];
    var incoming := [("x", Arr([Int(2)]))];
    assert Keys(e) == ["a"] && Keys(inner) == ["x"];
    assert HasKey(e, "a") && Get(e, "a") == Obj(inner);
    assert AddSubKeys(inner, incoming, 0, "a", p.addedKeys).0 == inner;
    var s := SharedTopKey(e, "a", Obj(incoming), p);
    SetKeySame(e, "a");
    assert s.entry == e;
  }

  lemma ListMerge()
    ensures var e := [("a", Obj([("x", Arr([Int(1)]))]))];
      var conf := [("a", Obj([("x", Arr([Int(2)]))]))];
      AppendOnly(Obj(e), Obj(conf)) == Obj([("a", Obj([("x", Arr([Int(1), Int(2)]))]))])
  {
    SameKeyMerge("a", Obj([("x", Arr([Int(1)]))]), Obj([("x", Arr([Int(2)]))]));
    SameKeyMerge("x", Arr([Int(1)]), Arr([Int(2)]));
    DistinctSingletons(Int(1), Int(2));
  }

  // ---- The fold over the sources ----

  /** The merged server map and the provenance record of each server. */
  datatype BuildState = BuildState(merged: Fields, prov: map<string, Provenance>)

  /** Every merged server has a record, and every record belongs to a merged server. */
  ghost predicate Tracked(st: BuildState) {
    forall n :: HasKey(st.merged, n) <==> n in st.prov
  }

  /** `if src_name not in sources: sources.append(src_name)` */
  function AddName(xs: seq<string>, s: string): seq<string> {
    if s in xs then xs else xs + [s]
  }

  /** Recording a server under `name` in a state whose merged keys gained at most `name` keeps it tracked. */
  lemma Record(st: BuildState, merged: Fields, name: string, p: Provenance)
    requires Tracked(st) && HasKey(merged, name)
    requires forall j :: j != name ==> (HasKey(merged, j) <==> HasKey(st.merged, j))
    ensures Tracked(BuildState(merged, st.prov[name := p]))
  {
  }

  /** One server of one source. */
  function ServerStep(st: BuildState, src: Source, name: string, conf: Tree): (r: BuildState)
    requires Tracked(st)
    ensures Tracked(r)
    ensures r.prov.Keys == st.prov.Keys + {name}
    ensures forall m :: m in st.prov && m != name ==> r.prov[m] == st.prov[m]
    ensures r.prov[name].sources == AddName(if name in st.prov then st.prov[name].sources else [], src.name)
    ensures r.prov[name].introducedBy == if name in st.prov then st.prov[name].introducedBy else src.name
    ensures HasKey(r.merged, name)
    ensures forall n :: n != name ==> (HasKey(r.merged, n) <==> HasKey(st.merged, n))
    ensures forall n :: n != name && HasKey(st.merged, n) ==> Get(r.merged, n) == Get(st.merged, n)
    ensures !HasKey(st.merged, name) ==> Get(r.merged, name) == conf
    ensures HasKey(st.merged, name) && !(conf.Obj? && Get(st.merged, name).Obj?) ==> r.merged == st.merged
    ensures HasKey(st.merged, name) && conf.Obj? && Get(st.merged, name).Obj? ==> Get(r.merged, name).Obj?
  {
    if !HasKey(st.merged, name) then
      var merged := SetKey(st.merged, name, conf);
      Record(st, merged, name, Introduce(src, conf));
      BuildState(merged, st.prov[name := Introduce(src, conf)])
    else
      var p := st.prov[name];
      var p1 := if src.name in p.sources then p
        else p.(sources := p.sources + [src.name], sourcePaths := p.sourcePaths[src.name := src.path]);
      var e := Get(st.merged, name);
      if conf.Obj? && e.Obj? then
        var s := MergeEntryFrom(e.fields, conf.fields, 0, p1);
        var merged := SetKey(st.merged, name, Obj(s.entry));
        Record(st, merged, name, s.prov);
        BuildState(merged, st.prov[name := s.prov])
      else
        Record(st, st.merged, name, p1);
        BuildState(st.merged, st.prov[name := p1])
  }

  /** The loop over one source's servers, from entry `i` on. */
  function AddSource(st: BuildState, src: Source, i: nat): (r: BuildState)
    requires Tracked(st) && i <= |src.servers|
    ensures Tracked(r)
    decreases |src.servers| - i
  {
    if i == |src.servers| then st
    else AddSource(ServerStep(st, src, src.servers[i].0, src.servers[i].1), src, i + 1)
  }

  /** The loop over the sources, in order. */
  function BuildFrom(st: BuildState, sources: seq<Source>): (r: BuildState)
    requires Tracked(st)
    ensures Tracked(r)
    decreases |sources|
  {
    if |sources| == 0 then st
    else BuildFrom(AddSource(st, sources[0], 0), sources[1..])
  }

  /** `build`'s merged map and records: cursor, then claude_desktop, then codex. */
  function Build(cursor: Fields, claudeDesktop: Fields, codex: Fields, paths: (string, string, string)): BuildState {
    BuildFrom(BuildState([], map[]), StandardSources(cursor, claudeDesktop, codex, paths))
  }

  function StandardSources(cursor: Fields, claudeDesktop: Fields, codex: Fields, paths: (string, string, string))
    : seq<Source>
  {
    [Source("cursor", cursor, paths.0), Source("claude_desktop", claudeDesktop, paths.1), Source("codex", codex, paths.2)]
  }

  /** `report["stats"]["total_servers"]` */
  function TotalServers(st: BuildState): nat {
    |st.merged|
  }

  /** `report["stats"]["by_source_presence"][s]`: how many servers list `s` among their sources. */
  function Presence(st: BuildState, s: string): nat {
    |set n | n in st.prov && s in st.prov[n].sources|
  }

  // ---- Names ----

  function ServersOf(sources: seq<Source>): (r: seq<Fields>)
    ensures |r| == |sources| && forall j :: 0 <= j < |sources| ==> r[j] == sources[j].servers
  {
    seq(|sources|, j requires 0 <= j < |sources| => sources[j].servers)
  }

  lemma SameKeysSetKey(m1: Fields, m2: Fields, k: string, x: Tree, y: Tree)
    requires Keys(m1) == Keys(m2)
    ensures Keys(SetKey(m1, k, x)) == Keys(SetKey(m2, k, y))
  {
  }

  lemma {:induction false} AddSourceKeys(st: BuildState, m: Fields, src: Source, i: nat)
    requires Tracked(st) && i <= |src.servers| && Keys(st.merged) == Keys(m)
    ensures Keys(AddSource(st, src, i).merged) == Keys(Sync.CollectServers(m, src.servers, i))
    decreases |src.servers| - i
  {
    if i < |src.servers| {
      var name := src.servers[i].0;
      var conf := src.servers[i].1;
      var st' := ServerStep(st, src, name, conf);
      var m' := if !HasKey(m, name) then SetKey(m, name, conf) else SetKey(m, name, AppendOnly(Get(m, name), conf));
      if HasKey(st.merged, name) {
        var p := st.prov[name];
        var e := Get(st.merged, name);
        if conf.Obj? && e.Obj? {
          SameKeysSetKey(st.merged, m, name, Obj(MergeEntryFrom(e.fields, conf.fields, 0,
            if src.name in p.sources then p
            else p.(sources := p.sources + [src.name], sourcePaths := p.sourcePaths[src.name := src.path])).entry),
            AppendOnly(Get(m, name), conf));
        }
      } else {
        SameKeysSetKey(st.merged, m, name, conf, conf);
      }
      assert Keys(st'.merged) == Keys(m');
      AddSourceKeys(st', m', src, i + 1);
    }
  }

  /** The fold names its servers in the same order as the collection fold of `cmd_init` does. */
  lemma {:induction false} BuildKeysMatchCollect(st: BuildState, m: Fields, sources: seq<Source>)
    requires Tracked(st) && Keys(st.merged) == Keys(m)
    ensures Keys(BuildFrom(st, sources).merged) == Keys(Sync.Collect(m, ServersOf(sources)))
    decreases |sources|
  {
    if |sources| > 0 {
      AddSourceKeys(st, m, sources[0], 0);
      assert ServersOf(sources)[1..] == ServersOf(sources[1..]);
      BuildKeysMatchCollect(AddSource(st, sources[0], 0), Sync.CollectServers(m, sources[0].servers, 0), sources[1..]);
    }
  }

  predicate SourcesWF(sources: seq<Source>) {
    forall j :: 0 <= j < |sources| ==> DistinctKeys(sources[j].servers)
  }

  /** The merged names are the union of the sources' names, each once. */
  lemma BuildNames(sources: seq<Source>)
    requires SourcesWF(sources)
    ensures var r := BuildFrom(BuildState([], map[]), sources);
      && DistinctKeys(r.merged)
      && (forall n :: HasKey(r.merged, n) <==> exists j :: 0 <= j < |sources| && HasKey(sources[j].servers, n))
  {
    BuildKeysMatchCollect(BuildState([], map[]), [], sources);
    NamesOfCollect(BuildFrom(BuildState([], map[]), sources).merged, sources);
  }

  /** A map with the collected keys has distinct keys, and they are the sources' names. */
  lemma NamesOfCollect(r: Fields, sources: seq<Source>)
    requires SourcesWF(sources) && Keys(r) == Keys(Sync.Collect([], ServersOf(sources)))
    ensures DistinctKeys(r)
    ensures forall n :: HasKey(r, n) <==> exists j :: 0 <= j < |sources| && HasKey(sources[j].servers, n)
  {
    var ss := ServersOf(sources);
    var c := Sync.Collect([], ss);
    assert forall j :: 0 <= j < |ss| ==> DistinctKeys(ss[j]);
    Sync.CollectNames([], ss);
    SameKeys(r, c);
    assert forall n :: !HasKey([], n);
  }

  lemma SameKeys(a: Fields, b: Fields)
    requires Keys(a) == Keys(b) && DistinctKeys(b)
    ensures DistinctKeys(a) && forall n :: HasKey(a, n) <==> HasKey(b, n)
  {
    forall i, j | 0 <= i < j < |a| ensures a[i].0 != a[j].0 {
      assert Keys(a)[i] == b[i].0 && Keys(a)[j] == b[j].0;
    }
  }

  /** All the names the sources use. */
  function AllNames(sources: seq<Source>): set<string> {
    set j, n | 0 <= j < |sources| && n in KeySet(sources[j].servers) :: n
  }

  /** `total_servers` is the number of distinct names across the sources. */
  lemma TotalServersCount(sources: seq<Source>)
    requires SourcesWF(sources)
    ensures TotalServers(BuildFrom(BuildState([], map[]), sources)) == |AllNames(sources)|
  {
    var r := BuildFrom(BuildState([], map[]), sources);
    BuildNames(sources);
    DistinctKeyCount(r.merged);
    KeySetOf(r.merged);
    forall n ensures n in KeySet(r.merged) <==> n in AllNames(sources) {
      if n in AllNames(sources) {
        var j :| 0 <= j < |sources| && n in KeySet(sources[j].servers);
        KeySetOf(sources[j].servers);
      }
      if HasKey(r.merged, n) {
        var j :| 0 <= j < |sources| && HasKey(sources[j].servers, n);
        KeySetOf(sources[j].servers);
      }
    }
    assert KeySet(r.merged) == AllNames(sources);
  }

  // ---- Values: the fold against the collection of `cmd_init` ----

  /**
   * A known server whose entry and the incoming one are both mappings gets,
   * as its new entry, the one-level merge: each shared key merged one level
   * deep, then the keys only the source has, in the source's order.
   */
  lemma ServerStepMerges(st: BuildState, src: Source, name: string, conf: Tree)
    requires Tracked(st) && WF(Obj(st.merged)) && WF(conf)
    requires HasKey(st.merged, name) && conf.Obj? && Get(st.merged, name).Obj?
    ensures var e := Get(st.merged, name).fields;
      Get(ServerStep(st, src, name, conf).merged, name)
        == Obj(UpdateOneLevel(e, conf.fields) + NewEntries(conf.fields, Keys(e)))
  {
    assert WF(st.merged[IndexOf(st.merged, name)].1);
    var p := st.prov[name];
    var p1 := if src.name in p.sources then p
      else p.(sources := p.sources + [src.name], sourcePaths := p.sourcePaths[src.name := src.path]);
    MergeEntrySpec(Get(st.merged, name).fields, conf.fields, 0, p1);
    assert conf.fields[0..] == conf.fields;
  }

  /**
   * Where the fold can meet a server entry without a clash it does not merge
   * as deeply as the append-only merge: the known entry and the incoming one
   * are not two lists, and two mappings share no key below the first level.
   */
  predicate NoClashAt(m: Fields, name: string, conf: Tree) {
    HasKey(m, name) ==>
      var e := Get(m, name);
      && !(e.Arr? && conf.Arr?)
      && (e.Obj? && conf.Obj? ==> Shallow(e.fields, conf.fields))
  }

  /** No clash anywhere in one source's loop from entry `i` on, run from the map `m`. */
  predicate NoClashFrom(m: Fields, servers: Fields, i: nat)
    requires i <= |servers|
    decreases |servers| - i
  {
    i == |servers| ||
      (NoClashAt(m, servers[i].0, servers[i].1) && NoClashFrom(MergeKey(m, servers[i].0, servers[i].1), servers, i + 1))
  }

  /** No clash anywhere in the loop over the sources. */
  predicate NoClash(m: Fields, sources: seq<Fields>)
    decreases |sources|
  {
    |sources| == 0 ||
      (NoClashFrom(m, sources[0], 0) && NoClash(Sync.CollectServers(m, sources[0], 0), sources[1..]))
  }

  /** One turn of the collection loop keeps the map well formed. */
  lemma MergeKeyWF(m: Fields, k: string, v: Tree)
    requires WF(Obj(m)) && WF(v)
    ensures WF(Obj(MergeKey(m, k, v)))
  {
    var b := Obj([(k, v)]);
    assert Keys(b.fields) == [k];
    assert MergeEntries(m, b, 0) == MergeEntries(MergeKey(m, k, v), b, 1) == MergeKey(m, k, v);
    PreservesWF(Obj(m), b);
  }

  /** Without a clash, one server of one source lands exactly as in the collection loop. */
  lemma ServerStepAgrees(st: BuildState, src: Source, name: string, conf: Tree)
    requires Tracked(st) && WF(Obj(st.merged)) && WF(conf) && NoClashAt(st.merged, name, conf)
    ensures ServerStep(st, src, name, conf).merged == MergeKey(st.merged, name, conf)
  {
    if HasKey(st.merged, name) {
      var e := Get(st.merged, name);
      assert WF(st.merged[IndexOf(st.merged, name)].1);
      if e.Obj? && conf.Obj? {
        var p := st.prov[name];
        var p1 := if src.name in p.sources then p
          else p.(sources := p.sources + [src.name], sourcePaths := p.sourcePaths[src.name := src.path]);
        EntryAgreesWithMerge(e.fields, conf.fields, p1);
      } else {
        SetKeySame(st.merged, name);
      }
    }
  }

  lemma {:induction false} AddSourceAgrees(st: BuildState, src: Source, i: nat)
    requires Tracked(st) && WF(Obj(st.merged)) && WF(Obj(src.servers)) && i <= |src.servers|
    requires NoClashFrom(st.merged, src.servers, i)
    ensures AddSource(st, src, i).merged == Sync.CollectServers(st.merged, src.servers, i)
    ensures WF(Obj(AddSource(st, src, i).merged))
    decreases |src.servers| - i
  {
    if i < |src.servers| {
      var name := src.servers[i].0;
      var conf := src.servers[i].1;
      assert WF(conf);
      ServerStepAgrees(st, src, name, conf);
      MergeKeyWF(st.merged, name, conf);
      var next := if !HasKey(st.merged, name) then SetKey(st.merged, name, conf)
        else SetKey(st.merged, name, AppendOnly(Get(st.merged, name), conf));
      assert next == MergeKey(st.merged, name, conf);
      AddSourceAgrees(ServerStep(st, src, name, conf), src, i + 1);
    }
  }

  /**
   * When no source clashes below the first level of a server entry, `build`'s
   * merged map is exactly what the collection fold of `cmd_init` makes of the
   * same sources in the same order: the append-only merge, source by source.
   */
  lemma {:induction false} BuildAgreesWithCollect(st: BuildState, sources: seq<Source>)
    requires Tracked(st) && WF(Obj(st.merged))
    requires forall j :: 0 <= j < |sources| ==> WF(Obj(sources[j].servers))
    requires NoClash(st.merged, ServersOf(sources))
    ensures BuildFrom(st, sources).merged == Sync.Collect(st.merged, ServersOf(sources))
    decreases |sources|
  {
    if |sources| > 0 {
      AddSourceAgrees(st, sources[0], 0);
      assert ServersOf(sources)[1..] == ServersOf(sources[1..]);
      BuildAgreesWithCollect(AddSource(st, sources[0], 0), sources[1..]);
    }
  }

  /**
   * A server entry that is a list is not merged by the fold: the list of the
   * first source stays, while the collection loop takes the union of both.
   */
  lemma ListServerDiverges()
    ensures var st := BuildState([("s", Arr([Int(1)]))], map["s" := Introduce(Source("cursor", [], "a"), Arr([Int(1)]))]);
      && Tracked(st)
      && ServerStep(st, Source("codex", [], "b"), "s", Arr([Int(2)])).merged == [("s", Arr([Int(1)]))]
      && MergeKey(st.merged, "s", Arr([Int(2)])) == [("s", Arr([Int(1), Int(2)]))]
  {
    var m := [("s", Arr([Int(1)]))];
    assert Keys(m) == ["s"];
    forall n ensures HasKey(m, n) <==> n == "s" {
      if HasKey(m, n) { assert Keys(m)[0] == n; }
    }
    DistinctSingletons(Int(1), Int(2));
  }

  // ---- Provenance ----

  /** Fold of `AddName`: the sources, from `acc` on, that name `n`, each once, in the order first seen. */
  function SourcesFrom(acc: seq<string>, sources: seq<Source>, n: string): seq<string>
    decreases |sources|
  {
    if |sources| == 0 then acc
    else SourcesFrom(if HasKey(sources[0].servers, n) then AddName(acc, sources[0].name) else acc, sources[1..], n)
  }

  /** The names of the sources that name `n`, in source order. */
  function Naming(sources: seq<Source>, n: string): (r: seq<string>)
    ensures forall s :: s in r <==> exists j :: 0 <= j < |sources| && sources[j].name == s && HasKey(sources[j].servers, n)
  {
    if |sources| == 0 then []
    else
      var rest := Naming(sources[1..], n);
      assert forall j :: 1 <= j < |sources| ==> sources[j] == sources[1..][j - 1];
      (if HasKey(sources[0].servers, n) then [sources[0].name] else []) + rest
  }

  /** The sources a server's record lists so far, or none for an unknown server. */
  function Listed(st: BuildState, n: string): seq<string> {
    if n in st.prov then st.prov[n].sources else []
  }

  /** Every record lists at least one source, the first being the one that introduced it. */
  ghost predicate Consistent(st: BuildState) {
    forall n :: n in st.prov ==> |st.prov[n].sources| > 0 && st.prov[n].introducedBy == st.prov[n].sources[0]
  }

  lemma ServerStepRecords(st: BuildState, src: Source, name: string, conf: Tree, n: string)
    requires Tracked(st) && Consistent(st)
    ensures var r := ServerStep(st, src, name, conf);
      && Consistent(r)
      && (n in r.prov <==> n in st.prov || n == name)
      && Listed(r, n) == if n == name then AddName(Listed(st, n), src.name) else Listed(st, n)
  {
    var r := ServerStep(st, src, name, conf);
    var before := if name in st.prov then st.prov[name].sources else [];
    assert r.prov[name].sources == AddName(before, src.name);
    assert |AddName(before, src.name)| > 0;
    assert |before| > 0 ==> AddName(before, src.name)[0] == before[0];
    forall m | m in r.prov
      ensures |r.prov[m].sources| > 0 && r.prov[m].introducedBy == r.prov[m].sources[0]
    {
      if m != name {
        assert r.prov[m] == st.prov[m];
      }
    }
  }

  lemma {:induction false} AddSourceRecords(st: BuildState, src: Source, i: nat, n: string)
    requires Tracked(st) && Consistent(st) && i <= |src.servers| && DistinctKeys(src.servers)
    ensures var r := AddSource(st, src, i);
      && Consistent(r)
      && (n in r.prov <==> n in st.prov || HasKey(src.servers[i..], n))
      && Listed(r, n) == if HasKey(src.servers[i..], n) then AddName(Listed(st, n), src.name) else Listed(st, n)
    decreases |src.servers| - i
  {
    var vs := src.servers[i..];
    if i == |src.servers| {
      assert Keys(vs) == [];
    } else {
      var name := src.servers[i].0;
      var st' := ServerStep(st, src, name, src.servers[i].1);
      ServerStepRecords(st, src, name, src.servers[i].1, n);
      AddSourceRecords(st', src, i + 1, n);
      assert vs[0] == src.servers[i] && vs[1..] == src.servers[i + 1..];
      if n == name {
        NoLaterDuplicate(src.servers, i);
        assert Keys(vs)[0] == n;
      } else {
        DropHead(vs, n);
      }
    }
  }

  lemma {:induction false} BuildRecords(st: BuildState, sources: seq<Source>, n: string)
    requires Tracked(st) && Consistent(st) && SourcesWF(sources)
    ensures var r := BuildFrom(st, sources);
      && Consistent(r)
      && (n in r.prov <==> n in st.prov || exists j :: 0 <= j < |sources| && HasKey(sources[j].servers, n))
      && Listed(r, n) == SourcesFrom(Listed(st, n), sources, n)
    decreases |sources|
  {
    if |sources| > 0 {
      var src := sources[0];
      AddSourceRecords(st, src, 0, n);
      assert src.servers[0..] == src.servers;
      var rest := sources[1..];
      assert forall j :: 1 <= j < |sources| ==> sources[j] == rest[j - 1];
      BuildRecords(AddSource(st, src, 0), rest, n);
    }
  }

  predicate DistinctSourceNames(sources: seq<Source>) {
    forall i, j :: 0 <= i < j < |sources| ==> sources[i].name != sources[j].name
  }

  /** With distinct source names, the fold lists each naming source once, in source order. */
  lemma {:induction false} SourcesOnce(acc: seq<string>, sources: seq<Source>, n: string)
    requires DistinctSourceNames(sources)
    requires forall j :: 0 <= j < |sources| ==> sources[j].name !in acc
    ensures SourcesFrom(acc, sources, n) == acc + Naming(sources, n)
    decreases |sources|
  {
    if |sources| > 0 {
      var rest := sources[1..];
      assert forall j :: 1 <= j < |sources| ==> sources[j] == rest[j - 1];
      var acc' := if HasKey(sources[0].servers, n) then AddName(acc, sources[0].name) else acc;
      SourcesOnce(acc', rest, n);
      if HasKey(sources[0].servers, n) {
        assert acc' == acc + [sources[0].name];
        assert acc' + Naming(rest, n) == acc + ([sources[0].name] + Naming(rest, n));
      } else {
        assert acc + Naming(rest, n) == acc + Naming(sources, n);
      }
    }
  }

  /**
   * The records of `build`: a server has one exactly when some source names
   * it; its `sources` are the sources that name it, once each, in source
   * order; and it was introduced by the first of them.
   */
  lemma ProvenanceSources(sources: seq<Source>, n: string)
    requires SourcesWF(sources) && DistinctSourceNames(sources)
    ensures var r := BuildFrom(BuildState([], map[]), sources);
      && (n in r.prov <==> exists j :: 0 <= j < |sources| && HasKey(sources[j].servers, n))
      && (n in r.prov ==> r.prov[n].sources == Naming(sources, n))
      && (forall j :: (0 <= j < |sources| && HasKey(sources[j].servers, n)
            && forall i :: 0 <= i < j ==> !HasKey(sources[i].servers, n)) ==>
            r.prov[n].introducedBy == sources[j].name)
  {
    var r := BuildFrom(BuildState([], map[]), sources);
    BuildRecords(BuildState([], map[]), sources, n);
    SourcesOnce([], sources, n);
    assert [] + Naming(sources, n) == Naming(sources, n);
    forall j | 0 <= j < |sources| && HasKey(sources[j].servers, n)
      && (forall i :: 0 <= i < j ==> !HasKey(sources[i].servers, n))
      ensures r.prov[n].introducedBy == sources[j].name
    {
      NamingFirst(sources, n, j);
    }
  }

  lemma {:induction false} NamingFirst(sources: seq<Source>, n: string, j: nat)
    requires j < |sources| && HasKey(sources[j].servers, n)
    requires forall i :: 0 <= i < j ==> !HasKey(sources[i].servers, n)
    ensures |Naming(sources, n)| > 0 && Naming(sources, n)[0] == sources[j].name
  {
    if j > 0 {
      var rest := sources[1..];
      assert forall i :: 1 <= i < |sources| ==> sources[i] == rest[i - 1];
      NamingFirst(rest, n, j - 1);
    }
  }

  /**
   * `by_source_presence`: with distinct source names, a source is counted
   * once for each server it names.
   */
  lemma PresenceCount(sources: seq<Source>, j: nat)
    requires SourcesWF(sources) && DistinctSourceNames(sources) && j < |sources|
    ensures Presence(BuildFrom(BuildState([], map[]), sources), sources[j].name) == |sources[j].servers|
  {
    var r := BuildFrom(BuildState([], map[]), sources);
    var s := sources[j].name;
    var counted := set n | n in r.prov && s in r.prov[n].sources;
    KeySetOf(sources[j].servers);
    forall n ensures n in counted <==> n in KeySet(sources[j].servers) {
      ProvenanceSources(sources, n);
      if n in r.prov && s in r.prov[n].sources {
        var i :| 0 <= i < |sources| && sources[i].name == s && HasKey(sources[i].servers, n);
        assert i == j;
      }
    }
    assert counted == KeySet(sources[j].servers);
    DistinctKeyCount(sources[j].servers);
  }

  /** The three standard sources have distinct names, so the lemmas above apply to `build` itself. */
  lemma StandardSourcesDistinct(cursor: Fields, claudeDesktop: Fields, codex: Fields, paths: (string, string, string))
    ensures DistinctSourceNames(StandardSources(cursor, claudeDesktop, codex, paths))
  {
  }
}
