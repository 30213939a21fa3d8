/**
 * The append-only deep merge. The repository carries three identical copies of
 * it: `_append_only` in src/mcpset/cli.py and `append_only` in
 * src/mcpset/build_central_from_existing.py and src/mcpset/merge_toml.py.
 *
 * `AppendOnly(a, b)` merges the incoming tree `b` into the existing tree `a`:
 * two mappings keep every entry of `a` and gain the keys only `b` has, two
 * lists keep `a` and gain the items of `b` that `a` lacks, and anything else
 * is `a` unchanged.
 */
module AppendOnlyMerge {
  import opened ConfigTree

  function AppendOnly(a: Tree, b: Tree): (r: Tree)
    decreases b, if b.Obj? then |b.fields| + 1 else 0
    ensures r.Obj? == a.Obj? && r.Arr? == a.Arr?
    ensures IsScalar(a) ==> r == a
  {
    if a.Obj? && b.Obj? then Obj(MergeEntries(a.fields, b, 0))
    else if a.Arr? && b.Arr? then Arr(ListUnion(a.items, b.items))
    else a
  }

  /**
   * The loop over the incoming mapping's entries, from entry `i` on, with `out`
   * the result so far (it starts as a copy of the existing mapping).
   */
  function MergeEntries(out: Fields, b: Tree, i: nat): Fields
    requires b.Obj? && i <= |b.fields|
    decreases b, |b.fields| - i
  {
    if i == |b.fields| then out
    else MergeEntries(MergeKey(out, b.fields[i].0, b.fields[i].1), b, i + 1)
  }

  /**
   * One turn of that loop. A shared key recurses when both values are
   * mappings, takes the list union when both are lists and otherwise keeps the
   * existing value; a new key takes the incoming value.
   */
  function MergeKey(out: Fields, k: string, bv: Tree): Fields
    decreases bv, if bv.Obj? then |bv.fields| + 2 else 1
  {
    if HasKey(out, k) then
      var av := Get(out, k);
      SetKey(out, k,
        if av.Obj? && bv.Obj? then AppendOnly(av, bv)
        else if av.Arr? && bv.Arr? then Arr(ListUnion(av.items, bv.items))
        else av)
    else SetKey(out, k, bv)
  }

  /** The items of `xs` that `a` does not contain, in their order in `xs`. */
  function Unseen(xs: seq<Tree>, a: seq<Tree>): (r: seq<Tree>)
    ensures forall j :: 0 <= j < |r| ==> r[j] in xs && !Contains(a, r[j])
  {
    if |xs| == 0 then []
    else (if Contains(a, xs[0]) then [] else [xs[0]]) + Unseen(xs[1..], a)
  }

  /** `a + [x for x in b if x not in a]` */
  function ListUnion(a: seq<Tree>, b: seq<Tree>): (r: seq<Tree>)
    ensures |a| <= |r| && r[..|a|] == a
    ensures forall j :: |a| <= j < |r| ==> r[j] in b && !Contains(a, r[j])
  {
    a + Unseen(b, a)
  }

  /**
   * The kept items stay in incoming order: filtering a concatenation filters
   * each part in turn, so an item absent from `a` comes before every later one.
   */
  lemma {:induction false} UnseenAppend(xs: seq<Tree>, ys: seq<Tree>, a: seq<Tree>)
    ensures Unseen(xs + ys, a) == Unseen(xs, a) + Unseen(ys, a)
  {
    if |xs| == 0 {
      assert xs + ys == ys;
    } else {
      var zs := xs + ys;
      assert zs[0] == xs[0] && zs[1..] == xs[1..] + ys;
      UnseenAppend(xs[1..], ys, a);
      var head := if Contains(a, xs[0]) then [] else [xs[0]];
      assert Unseen(zs, a) == head + (Unseen(xs[1..], a) + Unseen(ys, a));
      assert head + (Unseen(xs[1..], a) + Unseen(ys, a)) == (head + Unseen(xs[1..], a)) + Unseen(ys, a);
    }
  }

  /** The union of `a` with a concatenation appends each part's new items in turn. */
  lemma ListUnionAppend(a: seq<Tree>, ys: seq<Tree>, zs: seq<Tree>)
    ensures ListUnion(a, ys + zs) == ListUnion(a, ys) + Unseen(zs, a)
  {
    UnseenAppend(ys, zs, a);
  }

  // ---- The merge of two mappings, stated in one piece ----

  /** The existing entries, in place, each merged with the incoming value when the key is shared. */
  function UpdateShared(fs: Fields, gs: Fields): Fields {
    seq(|fs|, i requires 0 <= i < |fs| =>
      (fs[i].0, if HasKey(gs, fs[i].0) then AppendOnly(fs[i].1, Get(gs, fs[i].0)) else fs[i].1))
  }

  /** The entries of `gs` whose key is not in `ks`, in the order of `gs`. */
  function NewEntries(gs: Fields, ks: seq<string>): Fields {
    if |gs| == 0 then []
    else (if gs[0].0 in ks then [] else [gs[0]]) + NewEntries(gs[1..], ks)
  }

  lemma DropHead(bs: Fields, key: string)
    requires |bs| > 0 && bs[0].0 != key
    ensures HasKey(bs, key) <==> HasKey(bs[1..], key)
    ensures HasKey(bs, key) ==> Get(bs, key) == Get(bs[1..], key)
  {
    assert Keys(bs) == [bs[0].0] + Keys(bs[1..]);
  }

  lemma {:induction false} NewEntriesIgnoresAbsent(gs: Fields, ks: seq<string>, k: string)
    requires !HasKey(gs, k)
    ensures NewEntries(gs, ks + [k]) == NewEntries(gs, ks)
  {
    if |gs| > 0 {
      assert Keys(gs)[0] == gs[0].0;
      assert Keys(gs[1..]) == Keys(gs)[1..];
      NewEntriesIgnoresAbsent(gs[1..], ks, k);
    }
  }

  /** Merging a shared key's value in place is what `UpdateShared` does for that key. */
  lemma SharedKeyStep(out: Fields, bs: Fields)
    requires DistinctKeys(out) && |bs| > 0
    requires HasKey(out, bs[0].0) && !HasKey(bs[1..], bs[0].0)
    ensures var k := bs[0].0;
      UpdateShared(SetKey(out, k, AppendOnly(Get(out, k), bs[0].1)), bs[1..]) == UpdateShared(out, bs)
  {
    var k := bs[0].0;
    var out' := SetKey(out, k, AppendOnly(Get(out, k), bs[0].1));
    assert HasKey(bs, k) && IndexOf(bs, k) == 0 by { IndexOfFirst(bs, k, 0); }
    assert |out'| == |out| && forall j :: 0 <= j < |out| ==> out'[j].0 == out[j].0 by {
      assert Keys(out') == Keys(out);
      forall j | 0 <= j < |out| ensures out'[j].0 == out[j].0 {
        assert Keys(out')[j] == Keys(out)[j];
      }
    }
    forall j | 0 <= j < |out| ensures UpdateShared(out', bs[1..])[j] == UpdateShared(out, bs)[j] {
      var key := out[j].0;
      GetAt(out, j);
      GetAt(out', j);
      if key != k {
        DropHead(bs, key);
      }
    }
  }

  /** Appending a new key is what `UpdateShared` leaves alone and `NewEntries` adds. */
  lemma NewKeyStep(out: Fields, bs: Fields)
    requires |bs| > 0 && !HasKey(out, bs[0].0) && !HasKey(bs[1..], bs[0].0)
    ensures UpdateShared(out + [bs[0]], bs[1..]) == UpdateShared(out, bs) + [bs[0]]
    ensures NewEntries(bs, Keys(out)) == [bs[0]] + NewEntries(bs[1..], Keys(out + [bs[0]]))
  {
    NewKeyUpdate(out, bs);
    NewKeyEntries(out, bs);
  }

  lemma NewKeyUpdate(out: Fields, bs: Fields)
    requires |bs| > 0 && !HasKey(out, bs[0].0) && !HasKey(bs[1..], bs[0].0)
    ensures UpdateShared(out + [bs[0]], bs[1..]) == UpdateShared(out, bs) + [bs[0]]
  {
    var k := bs[0].0;
    var lhs := UpdateShared(out + [bs[0]], bs[1..]);
    var rhs := UpdateShared(out, bs) + [bs[0]];
    forall j | 0 <= j < |out| ensures lhs[j] == rhs[j] {
      assert Keys(out)[j] == out[j].0;
      DropHead(bs, out[j].0);
    }
    assert lhs[|out|] == rhs[|out|];
  }

  lemma NewKeyEntries(out: Fields, bs: Fields)
    requires |bs| > 0 && !HasKey(out, bs[0].0) && !HasKey(bs[1..], bs[0].0)
    ensures NewEntries(bs, Keys(out)) == [bs[0]] + NewEntries(bs[1..], Keys(out + [bs[0]]))
  {
    var k := bs[0].0;
    assert k !in Keys(out);
    assert NewEntries(bs, Keys(out)) == [bs[0]] + NewEntries(bs[1..], Keys(out));
    assert Keys(out + [bs[0]]) == Keys(out) + [k];
    NewEntriesIgnoresAbsent(bs[1..], Keys(out), k);
  }

  /**
   * The loop of `MergeEntries`, run over the incoming entries from `i` on,
   * computes the existing entries updated in place followed by the new ones.
   */
  lemma {:induction false} MergeEntriesSpec(out: Fields, b: Tree, i: nat)
    requires b.Obj? && i <= |b.fields|
    requires DistinctKeys(out) && DistinctKeys(b.fields)
    ensures MergeEntries(out, b, i) == UpdateShared(out, b.fields[i..]) + NewEntries(b.fields[i..], Keys(out))
    decreases |b.fields| - i
  {
    if i == |b.fields| {
      assert UpdateShared(out, b.fields[i..]) == out;
    } else {
      var k := b.fields[i].0;
      var bv := b.fields[i].1;
      assert MergeEntries(out, b, i) == MergeEntries(MergeKey(out, k, bv), b, i + 1);
      MergeKeyStep(out, b.fields, i);
      MergeEntriesSpec(MergeKey(out, k, bv), b, i + 1);
    }
  }

  /** One step of the loop: the reference moves on by one incoming entry. */
  lemma MergeKeyStep(out: Fields, gs: Fields, i: nat)
    requires i < |gs| && DistinctKeys(out) && DistinctKeys(gs)
    ensures var next := MergeKey(out, gs[i].0, gs[i].1);
      && DistinctKeys(next)
      && UpdateShared(next, gs[i + 1..]) + NewEntries(gs[i + 1..], Keys(next))
        == UpdateShared(out, gs[i..]) + NewEntries(gs[i..], Keys(out))
  {
    var bs := gs[i..];
    assert bs[0] == gs[i] && bs[1..] == gs[i + 1..];
    HeadNotInTail(bs);
    if HasKey(out, gs[i].0) {
      MergeSharedKey(out, bs);
    } else {
      MergeNewKey(out, bs);
    }
  }

  lemma MergeSharedKey(out: Fields, bs: Fields)
    requires |bs| > 0 && DistinctKeys(out) && HasKey(out, bs[0].0) && !HasKey(bs[1..], bs[0].0)
    ensures var next := MergeKey(out, bs[0].0, bs[0].1);
      && DistinctKeys(next)
      && UpdateShared(next, bs[1..]) + NewEntries(bs[1..], Keys(next))
        == UpdateShared(out, bs) + NewEntries(bs, Keys(out))
  {
    var k := bs[0].0;
    var next := SetKey(out, k, AppendOnly(Get(out, k), bs[0].1));
    assert MergeKey(out, k, bs[0].1) == next;
    assert DistinctKeys(next) by {
      forall j | 0 <= j < |out| ensures next[j].0 == out[j].0 {
        assert Keys(next)[j] == Keys(out)[j];
      }
    }
    SharedKeyStep(out, bs);
    assert NewEntries(bs, Keys(out)) == [] + NewEntries(bs[1..], Keys(out));
  }

  lemma MergeNewKey(out: Fields, bs: Fields)
    requires |bs| > 0 && DistinctKeys(out) && !HasKey(out, bs[0].0) && !HasKey(bs[1..], bs[0].0)
    ensures var next := MergeKey(out, bs[0].0, bs[0].1);
      && DistinctKeys(next)
      && UpdateShared(next, bs[1..]) + NewEntries(bs[1..], Keys(next))
        == UpdateShared(out, bs) + NewEntries(bs, Keys(out))
  {
    var k := bs[0].0;
    var next := out + [(k, bs[0].1)];
    assert MergeKey(out, k, bs[0].1) == next;
    assert DistinctKeys(next) by {
      forall j | 0 <= j < |out| ensures out[j].0 != k { assert Keys(out)[j] == out[j].0; }
    }
    NewKeyStep(out, bs);
    assert (UpdateShared(out, bs) + [bs[0]]) + NewEntries(bs[1..], Keys(next))
      == UpdateShared(out, bs) + ([bs[0]] + NewEntries(bs[1..], Keys(next)));
  }

  /**
   * Two mappings merge to the existing entries, at their positions, each merged
   * with the incoming value of the same key, followed by the incoming entries
   * whose key the existing mapping lacks, in incoming order.
   */
  lemma MergeObjects(fs: Fields, gs: Fields)
    requires DistinctKeys(fs) && DistinctKeys(gs)
    ensures AppendOnly(Obj(fs), Obj(gs)) == Obj(UpdateShared(fs, gs) + NewEntries(gs, Keys(fs)))
  {
    MergeEntriesSpec(fs, Obj(gs), 0);
    assert gs[0..] == gs;
  }

  // ---- Facts about the pieces ----

  lemma NewEntriesFacts(gs: Fields, ks: seq<string>)
    requires DistinctKeys(gs)
    ensures forall j :: 0 <= j < |NewEntries(gs, ks)| ==>
      && HasKey(gs, NewEntries(gs, ks)[j].0)
      && Get(gs, NewEntries(gs, ks)[j].0) == NewEntries(gs, ks)[j].1
      && NewEntries(gs, ks)[j].0 !in ks
    ensures forall k :: HasKey(gs, k) && k !in ks ==> HasKey(NewEntries(gs, ks), k)
    ensures forall j1, j2 :: 0 <= j1 < j2 < |NewEntries(gs, ks)| ==>
      IndexOf(gs, NewEntries(gs, ks)[j1].0) < IndexOf(gs, NewEntries(gs, ks)[j2].0)
  {
    NewEntriesSound(gs, ks);
    NewEntriesComplete(gs, ks);
  }

  /** The tail of a mapping with distinct keys does not hold its first key. */
  lemma HeadNotInTail(gs: Fields)
    requires |gs| > 0 && DistinctKeys(gs)
    ensures !HasKey(gs[1..], gs[0].0)
  {
    var rest := gs[1..];
    forall t | 0 <= t < |rest| ensures Keys(rest)[t] != gs[0].0 { assert rest[t] == gs[t + 1]; }
  }

  /** An entry of the tail is found one position later in the whole mapping. */
  lemma TailEntry(gs: Fields, key: string)
    requires |gs| > 0 && DistinctKeys(gs) && HasKey(gs[1..], key)
    ensures HasKey(gs, key) && IndexOf(gs, key) == 1 + IndexOf(gs[1..], key) && Get(gs, key) == Get(gs[1..], key)
  {
    HeadNotInTail(gs);
    var i := IndexOf(gs[1..], key);
    assert gs[1..][i] == gs[i + 1];
    IndexOfFirst(gs, key, i + 1);
  }

  /** Every new entry is an entry of `gs`, under a key outside `ks`, in the order of `gs`. */
  lemma {:induction false} NewEntriesSound(gs: Fields, ks: seq<string>)
    requires DistinctKeys(gs)
    ensures forall j :: 0 <= j < |NewEntries(gs, ks)| ==>
      && HasKey(gs, NewEntries(gs, ks)[j].0)
      && Get(gs, NewEntries(gs, ks)[j].0) == NewEntries(gs, ks)[j].1
      && NewEntries(gs, ks)[j].0 !in ks
    ensures forall j1, j2 :: 0 <= j1 < j2 < |NewEntries(gs, ks)| ==>
      IndexOf(gs, NewEntries(gs, ks)[j1].0) < IndexOf(gs, NewEntries(gs, ks)[j2].0)
  {
    if |gs| > 0 {
      var rest := gs[1..];
      var ne := NewEntries(gs, ks);
      var tail := NewEntries(rest, ks);
      assert DistinctKeys(rest) by {
        forall i, j | 0 <= i < j < |rest| ensures rest[i].0 != rest[j].0 {
          assert rest[i] == gs[i + 1] && rest[j] == gs[j + 1];
        }
      }
      NewEntriesSound(rest, ks);
      forall j | 0 <= j < |tail|
        ensures HasKey(gs, tail[j].0) && IndexOf(gs, tail[j].0) == 1 + IndexOf(rest, tail[j].0)
          && Get(gs, tail[j].0) == tail[j].1
      {
        TailEntry(gs, tail[j].0);
      }
      if gs[0].0 !in ks {
        IndexOfFirst(gs, gs[0].0, 0);
        assert ne == [gs[0]] + tail;
      } else {
        assert ne == tail;
      }
    }
  }

  /** Every key of `gs` outside `ks` has a new entry. */
  lemma {:induction false} NewEntriesComplete(gs: Fields, ks: seq<string>)
    ensures forall k :: HasKey(gs, k) && k !in ks ==> HasKey(NewEntries(gs, ks), k)
  {
    if |gs| > 0 {
      var rest := gs[1..];
      var ne := NewEntries(gs, ks);
      var tail := NewEntries(rest, ks);
      NewEntriesComplete(rest, ks);
      assert Keys(gs) == [gs[0].0] + Keys(rest);
      var head := if gs[0].0 in ks then [] else [gs[0]];
      assert ne == head + tail;
      assert Keys(ne) == Keys(head) + Keys(tail);
      forall k | HasKey(gs, k) && k !in ks
        ensures HasKey(ne, k)
      {
        if k == gs[0].0 {
          assert Keys(head) == [k];
        } else {
          assert HasKey(rest, k) && HasKey(tail, k);
        }
      }
    }
  }

  /** With no known keys every entry is new, and they are kept in order. */
  lemma {:induction false} NewEntriesAllNew(gs: Fields)
    ensures NewEntries(gs, []) == gs
  {
    if |gs| > 0 {
      NewEntriesAllNew(gs[1..]);
      assert gs == [gs[0]] + gs[1..];
    }
  }

  lemma {:induction false} NewEntriesAllKnown(gs: Fields, ks: seq<string>)
    requires forall k :: HasKey(gs, k) ==> k in ks
    ensures NewEntries(gs, ks) == []
  {
    if |gs| > 0 {
      assert Keys(gs) == [gs[0].0] + Keys(gs[1..]);
      NewEntriesAllKnown(gs[1..], ks);
    }
  }

  lemma {:induction false} UnseenAllContained(xs: seq<Tree>, a: seq<Tree>)
    requires forall j :: 0 <= j < |xs| ==> Contains(a, xs[j])
    ensures Unseen(xs, a) == []
  {
    if |xs| > 0 {
      UnseenAllContained(xs[1..], a);
    }
  }

  /** When `a` holds none of `b`'s items, all of `b` is appended, in order and with its duplicates. */
  lemma {:induction false} UnseenAllNew(xs: seq<Tree>, a: seq<Tree>)
    requires forall j :: 0 <= j < |xs| ==> !Contains(a, xs[j])
    ensures Unseen(xs, a) == xs
  {
    if |xs| > 0 {
      UnseenAllNew(xs[1..], a);
    }
  }

  /**
   * The appended tail holds each item `x` of `b` that `a` lacks exactly as
   * often as `b` does, and nothing else: duplicates inside `b` are not collapsed.
   */
  lemma {:induction false} UnseenCount(xs: seq<Tree>, a: seq<Tree>, x: Tree)
    ensures multiset(Unseen(xs, a))[x] == if Contains(a, x) then 0 else multiset(xs)[x]
  {
    if |xs| > 0 {
      UnseenCount(xs[1..], a, x);
      var head := if Contains(a, xs[0]) then [] else [xs[0]];
      assert Unseen(xs, a) == head + Unseen(xs[1..], a);
      assert multiset(Unseen(xs, a)) == multiset(head) + multiset(Unseen(xs[1..], a));
      assert xs == [xs[0]] + xs[1..];
      assert multiset(xs) == multiset([xs[0]]) + multiset(xs[1..]);
      if xs[0] != x {
        assert multiset(head)[x] == 0 && multiset([xs[0]])[x] == 0;
      }
    }
  }

  lemma {:induction false} UnseenHasNew(xs: seq<Tree>, a: seq<Tree>, j: nat)
    requires j < |xs| && !Contains(a, xs[j])
    ensures xs[j] in Unseen(xs, a)
  {
    if j > 0 {
      UnseenHasNew(xs[1..], a, j - 1);
    }
  }

  // ---- Properties of the merge ----

  /**
   * Merging two mappings: the existing keys come first, in their order, each
   * with its value merged with the incoming one when the key is shared; then
   * the incoming-only keys, in incoming order, each with the incoming value
   * unchanged. The result has exactly the keys of both sides, once each.
   */
  lemma ObjectMerge(fs: Fields, gs: Fields)
    requires DistinctKeys(fs) && DistinctKeys(gs)
    ensures var r := AppendOnly(Obj(fs), Obj(gs)).fields;
      && |fs| <= |r|
      && (forall i :: 0 <= i < |fs| ==> r[i].0 == fs[i].0)
      && (forall i :: 0 <= i < |fs| ==>
            r[i].1 == if HasKey(gs, fs[i].0) then AppendOnly(fs[i].1, Get(gs, fs[i].0)) else fs[i].1)
      && (forall i :: |fs| <= i < |r| ==> !HasKey(fs, r[i].0) && HasKey(gs, r[i].0) && r[i].1 == Get(gs, r[i].0))
      && (forall i, j :: |fs| <= i < j < |r| ==> IndexOf(gs, r[i].0) < IndexOf(gs, r[j].0))
      && (forall k :: HasKey(r, k) <==> HasKey(fs, k) || HasKey(gs, k))
      && DistinctKeys(r)
  {
    MergeObjects(fs, gs);
    NewEntriesFacts(gs, Keys(fs));
    MergedKeys(fs, gs);
  }

  lemma MergedKeys(fs: Fields, gs: Fields)
    requires DistinctKeys(fs) && DistinctKeys(gs)
    ensures var r := UpdateShared(fs, gs) + NewEntries(gs, Keys(fs));
      && (forall k :: HasKey(r, k) <==> HasKey(fs, k) || HasKey(gs, k))
      && DistinctKeys(r)
  {
    var up := UpdateShared(fs, gs);
    var ne := NewEntries(gs, Keys(fs));
    var r := up + ne;
    NewEntriesFacts(gs, Keys(fs));
    assert Keys(r) == Keys(fs) + Keys(ne);
    forall k ensures HasKey(r, k) <==> HasKey(fs, k) || HasKey(gs, k) {
      if HasKey(ne, k) {
        var j := IndexOf(ne, k);
        assert HasKey(gs, ne[j].0);
      }
    }
    forall i, j | 0 <= i < j < |r| ensures r[i].0 != r[j].0 {
      if j < |fs| {
      } else if i < |fs| {
        assert Keys(fs)[i] == r[i].0;
        assert ne[j - |fs|] == r[j];
      } else {
        assert ne[i - |fs|] == r[i] && ne[j - |fs|] == r[j];
        assert IndexOf(gs, ne[i - |fs|].0) < IndexOf(gs, ne[j - |fs|].0);
      }
    }
  }

  /**
   * Existing wins: at a key both mappings have, when the two values are not
   * both mappings and not both lists (two scalars, or mismatched kinds), the
   * result keeps the existing value.
   */
  lemma ExistingWins(fs: Fields, gs: Fields, k: string)
    requires DistinctKeys(fs) && DistinctKeys(gs)
    requires HasKey(fs, k) && HasKey(gs, k)
    requires !(Get(fs, k).Obj? && Get(gs, k).Obj?) && !(Get(fs, k).Arr? && Get(gs, k).Arr?)
    ensures var r := AppendOnly(Obj(fs), Obj(gs)).fields;
      HasKey(r, k) && Get(r, k) == Get(fs, k)
  {
    ObjectMerge(fs, gs);
    var r := AppendOnly(Obj(fs), Obj(gs)).fields;
    var i := IndexOf(fs, k);
    GetAt(r, i);
  }

  /**
   * No regression: whatever `a` holds survives in the merge — every key at the
   * same position, every list as a prefix, every scalar unchanged, at any depth.
   */
  lemma {:induction false} NoRegression(a: Tree, b: Tree)
    requires WF(a) && WF(b)
    ensures Extends(a, AppendOnly(a, b))
    decreases a
  {
    var r := AppendOnly(a, b);
    if a.Obj? && b.Obj? {
      var fs := a.fields;
      var gs := b.fields;
      ObjectMerge(fs, gs);
      forall i | 0 <= i < |fs| ensures Extends(fs[i].1, r.fields[i].1) {
        if HasKey(gs, fs[i].0) {
          assert WF(Get(gs, fs[i].0));
          NoRegression(fs[i].1, Get(gs, fs[i].0));
        } else {
          ExtendsReflexive(fs[i].1);
        }
      }
    } else if a.Arr? && b.Arr? {
    } else {
      ExtendsReflexive(a);
    }
  }

  /** The merge of two well-formed trees is well formed: no mapping gains a duplicate key. */
  lemma {:induction false} PreservesWF(a: Tree, b: Tree)
    requires WF(a) && WF(b)
    ensures WF(AppendOnly(a, b))
    decreases a
  {
    var r := AppendOnly(a, b);
    if a.Obj? && b.Obj? {
      var fs := a.fields;
      var gs := b.fields;
      ObjectMerge(fs, gs);
      forall i | 0 <= i < |r.fields| ensures WF(r.fields[i].1) {
        if i < |fs| {
          if HasKey(gs, fs[i].0) {
            assert WF(Get(gs, fs[i].0));
            PreservesWF(fs[i].1, Get(gs, fs[i].0));
          }
        } else {
          assert WF(Get(gs, r.fields[i].0));
        }
      }
    } else if a.Arr? && b.Arr? {
      forall j | 0 <= j < |r.items| ensures WF(r.items[j]) {
        if j < |a.items| {
          assert r.items[j] == r.items[..|a.items|][j];
        }
      }
    }
  }

  /** Idempotence: merging a tree into itself changes nothing. */
  lemma {:induction false} Idempotent(x: Tree)
    requires WF(x)
    ensures AppendOnly(x, x) == x
  {
    match x
    case Obj(fs) =>
      MergeObjects(fs, fs);
      NewEntriesAllKnown(fs, Keys(fs));
      forall i | 0 <= i < |fs| ensures UpdateShared(fs, fs)[i] == fs[i] {
        GetAt(fs, i);
        Idempotent(fs[i].1);
      }
    case Arr(xs) =>
      forall j | 0 <= j < |xs| ensures Contains(xs, xs[j]) {
        ContainsOwn(xs, j);
      }
      UnseenAllContained(xs, xs);
    case _ =>
  }

  /**
   * Merging the same incoming tree a second time changes nothing: everything
   * the first merge could add, it added.
   */
  lemma {:induction false} Stable(a: Tree, b: Tree)
    requires WF(a) && WF(b)
    ensures AppendOnly(AppendOnly(a, b), b) == AppendOnly(a, b)
    decreases a
  {
    var r := AppendOnly(a, b);
    if a.Obj? && b.Obj? {
      var fs := a.fields;
      var gs := b.fields;
      var rs := r.fields;
      ObjectMerge(fs, gs);
      MergeObjects(rs, gs);
      NewEntriesAllKnown(gs, Keys(rs));
      forall i | 0 <= i < |rs| ensures UpdateShared(rs, gs)[i] == rs[i] {
        if i < |fs| {
          if HasKey(gs, fs[i].0) {
            assert WF(Get(gs, fs[i].0));
            Stable(fs[i].1, Get(gs, fs[i].0));
          }
        } else {
          assert WF(Get(gs, rs[i].0));
          Idempotent(Get(gs, rs[i].0));
        }
      }
    } else if a.Arr? && b.Arr? {
      var xs := a.items;
      var ys := b.items;
      var rs := r.items;
      forall j | 0 <= j < |ys| ensures Contains(rs, ys[j]) {
        if Contains(xs, ys[j]) {
          var t :| 0 <= t < |xs| && Equiv(xs[t], ys[j]);
          assert rs[t] == xs[t];
        } else {
          UnseenHasNew(ys, xs, j);
          var t :| 0 <= t < |Unseen(ys, xs)| && Unseen(ys, xs)[t] == ys[j];
          assert rs[|xs| + t] == ys[j];
          EquivReflexive(ys[j]);
        }
      }
      UnseenAllContained(ys, rs);
    }
  }

  // ---- Small mappings, for the examples ----

  /** Two one-entry mappings under the same key merge at that key. */
  lemma SameKeyMerge(k: string, x: Tree, y: Tree)
    ensures AppendOnly(Obj([(k, x)]), Obj([(k, y)])) == Obj([(k, AppendOnly(x, y))])
  {
    var fs := [(k, x)];
    var gs := [(k, y)];
    assert Keys(fs) == [k] && Keys(gs) == [k];
    MergeObjects(fs, gs);
    GetAt(gs, 0);
    assert NewEntries(gs, Keys(fs)) == [] + NewEntries([], Keys(fs));
  }

  /** Two one-entry mappings under different keys are concatenated. */
  lemma DisjointMerge(k: string, x: Tree, j: string, z: Tree)
    requires k != j
    ensures AppendOnly(Obj([(k, x)]), Obj([(j, z)])) == Obj([(k, x), (j, z)])
  {
    var fs := [(k, x)];
    var gs := [(j, z)];
    assert Keys(fs) == [k] && Keys(gs) == [j];
    MergeObjects(fs, gs);
    assert NewEntries(gs, Keys(fs)) == [(j, z)] + NewEntries([], Keys(fs));
  }

  /** A one-entry mapping merged with the same key and one new key. */
  lemma SharedAndNewMerge(k: string, x: Tree, y: Tree, j: string, z: Tree)
    requires k != j
    ensures AppendOnly(Obj([(k, x)]), Obj([(k, y), (j, z)])) == Obj([(k, AppendOnly(x, y)), (j, z)])
  {
    var fs := [(k, x)];
    var gs := [(k, y), (j, z)];
    assert Keys(fs) == [k] && Keys(gs) == [k, j];
    MergeObjects(fs, gs);
    GetAt(gs, 0);
    assert gs[1..] == [(j, z)] && gs[1..][1..] == [];
    assert NewEntries(gs[1..], Keys(fs)) == [(j, z)] + NewEntries([], Keys(fs));
    assert NewEntries(gs, Keys(fs)) == [] + NewEntries(gs[1..], Keys(fs));
  }

  /** Two two-entry mappings under the same two keys merge key by key. */
  lemma TwoKeyMerge(k1: string, x1: Tree, y1: Tree, k2: string, x2: Tree, y2: Tree)
    requires k1 != k2
    ensures AppendOnly(Obj([(k1, x1), (k2, x2)]), Obj([(k1, y1), (k2, y2)]))
      == Obj([(k1, AppendOnly(x1, y1)), (k2, AppendOnly(x2, y2))])
  {
    var fs := [(k1, x1), (k2, x2)];
    var gs := [(k1, y1), (k2, y2)];
    assert Keys(fs) == [k1, k2] && Keys(gs) == [k1, k2];
    MergeObjects(fs, gs);
    GetAt(gs, 0);
    GetAt(gs, 1);
    NewEntriesAllKnown(gs, Keys(fs));
  }

  // ---- The repository's own examples ----

  /** Lists gain only the new items; nested mappings gain the new keys. */
  lemma MergesUniqueListItems()
    ensures AppendOnly(
        Obj([("a", Arr([Int(1), Int(2)])), ("b", Obj([("c", Int(1))]))]),
        Obj([("a", Arr([Int(2), Int(3)])), ("b", Obj([("d", Int(4))]))]))
      == Obj([("a", Arr([Int(1), Int(2), Int(3)])), ("b", Obj([("c", Int(1)), ("d", Int(4))]))])
  {
    TwoKeyMerge("a", Arr([Int(1), Int(2)]), Arr([Int(2), Int(3)]), "b", Obj([("c", Int(1))]), Obj([("d", Int(4))]));
    ListExample();
    NestedExample();
  }

  /** Two one-item lists whose items differ: the merge lists both. */
  lemma DistinctSingletons(x: Tree, y: Tree)
    requires !Equiv(x, y)
    ensures AppendOnly(Arr([x]), Arr([y])) == Arr([x, y])
  {
    var xs := [x];
    assert !Contains(xs, y) by { assert !Equiv(xs[0], y); }
    assert Unseen([y], xs) == [y];
  }

  lemma ListExample()
    ensures AppendOnly(Arr([Int(1), Int(2)]), Arr([Int(2), Int(3)])) == Arr([Int(1), Int(2), Int(3)])
  {
    var xs := [Int(1), Int(2)];
    assert Contains(xs, Int(2)) by { assert Equiv(xs[1], Int(2)); }
    assert !Contains(xs, Int(3)) by { assert !Equiv(xs[0], Int(3)) && !Equiv(xs[1], Int(3)); }
    assert Unseen([Int(2), Int(3)], xs) == [Int(3)];
  }

  lemma NestedExample()
    ensures AppendOnly(Obj([("c", Int(1))]), Obj([("d", Int(4))])) == Obj([("c", Int(1)), ("d", Int(4))])
  {
    DisjointMerge("c", Int(1), "d", Int(4));
  }

  /** A scalar already present is kept; a new key is added. */
  lemma PreservesExistingScalars()
    ensures AppendOnly(Obj([("a", Int(1))]), Obj([("a", Int(2)), ("b", Int(3))]))
      == Obj([("a", Int(1)), ("b", Int(3))])
  {
    SharedAndNewMerge("a", Int(1), Int(2), "b", Int(3));
  }
}
