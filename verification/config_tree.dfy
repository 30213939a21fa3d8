/**
 * Configuration trees: the parsed body of a JSON or TOML configuration file,
 * the way the merge code sees it after the format library has done its work.
 *
 * A mapping keeps its entries in insertion order (as a Python dict does), so it
 * is a sequence of key/value pairs; `WF` says that no key occurs twice.
 * Python compares dicts without regard to key order; `Equiv` is that equality.
 */
module ConfigTree {

  datatype Tree =
    | Obj(fields: seq<(string, Tree)>)
    | Arr(items: seq<Tree>)
    | Str(s: string)
    | Int(n: int)
    | Bool(b: bool)
    | Null

  /** The entries of one mapping, in insertion order. */
  type Fields = seq<(string, Tree)>

  /** Neither a mapping nor a list: the merge never looks inside it. */
  predicate IsScalar(t: Tree) {
    !t.Obj? && !t.Arr?
  }

  function Keys(fs: Fields): seq<string> {
    seq(|fs|, i requires 0 <= i < |fs| => fs[i].0)
  }

  function KeySet(fs: Fields): set<string> {
    set i | 0 <= i < |fs| :: fs[i].0
  }

  /** Python's `k in d`. */
  predicate HasKey(fs: Fields, k: string) {
    k in Keys(fs)
  }

  /** Position of the first entry with key `k`. */
  function IndexOf(fs: Fields, k: string): (i: nat)
    requires HasKey(fs, k)
    ensures i < |fs| && fs[i].0 == k
    ensures forall j :: 0 <= j < i ==> fs[j].0 != k
  {
    if fs[0].0 == k then 0
    else
      assert Keys(fs) == [fs[0].0] + Keys(fs[1..]);
      1 + IndexOf(fs[1..], k)
  }

  /** Python's `d[k]` on a present key. */
  function Get(fs: Fields, k: string): Tree
    requires HasKey(fs, k)
  {
    fs[IndexOf(fs, k)].1
  }

  /**
   * Python's `d[k] = v`: an existing key keeps its position and takes the new
   * value; a new key goes to the end.
   */
  function SetKey(fs: Fields, k: string, v: Tree): (r: Fields)
    ensures HasKey(fs, k) ==> Keys(r) == Keys(fs)
    ensures !HasKey(fs, k) ==> Keys(r) == Keys(fs) + [k]
    ensures HasKey(r, k) && Get(r, k) == v
    ensures forall j :: j != k ==> (HasKey(r, j) <==> HasKey(fs, j))
    ensures forall j :: j != k && HasKey(fs, j) ==> Get(r, j) == Get(fs, j)
  {
    AssignmentFacts(fs, k, v);
    if HasKey(fs, k) then fs[IndexOf(fs, k) := (k, v)] else fs + [(k, v)]
  }

  lemma AssignmentFacts(fs: Fields, k: string, v: Tree)
    ensures var r := if HasKey(fs, k) then fs[IndexOf(fs, k) := (k, v)] else fs + [(k, v)];
      && Keys(r) == (if HasKey(fs, k) then Keys(fs) else Keys(fs) + [k])
      && HasKey(r, k) && Get(r, k) == v
      && (forall j :: j != k ==> (HasKey(r, j) <==> HasKey(fs, j)))
      && (forall j :: j != k && HasKey(fs, j) ==> Get(r, j) == Get(fs, j))
  {
    var r := if HasKey(fs, k) then fs[IndexOf(fs, k) := (k, v)] else fs + [(k, v)];
    assert Keys(r) == if HasKey(fs, k) then Keys(fs) else Keys(fs) + [k];
    if HasKey(fs, k) {
      IndexOfFirst(r, k, IndexOf(fs, k));
    } else {
      forall j | 0 <= j < |fs| ensures fs[j].0 != k {
        assert Keys(fs)[j] == fs[j].0;
      }
      IndexOfFirst(r, k, |fs|);
    }
    forall j | j != k && HasKey(fs, j) ensures Get(r, j) == Get(fs, j) {
      IndexOfFirst(r, j, IndexOf(fs, j));
    }
  }

  /** The first entry with a key is the one `IndexOf` finds. */
  lemma IndexOfFirst(fs: Fields, k: string, i: nat)
    requires i < |fs| && fs[i].0 == k
    requires forall j :: 0 <= j < i ==> fs[j].0 != k
    ensures HasKey(fs, k) && IndexOf(fs, k) == i
  {
    assert Keys(fs)[i] == k;
  }

  predicate DistinctKeys(fs: Fields) {
    forall i, j :: 0 <= i < j < |fs| ==> fs[i].0 != fs[j].0
  }

  /** Every mapping, at every depth, has distinct keys — as every Python dict does. */
  predicate WF(t: Tree) {
    match t
    case Obj(fs) => DistinctKeys(fs) && forall i :: 0 <= i < |fs| ==> WF(fs[i].1)
    case Arr(xs) => forall i :: 0 <= i < |xs| ==> WF(xs[i])
    case _ => true
  }

  /**
   * Python's `==` on plain values. Two dicts are equal when they have the same
   * number of entries and every key of the left one is found in the right one
   * with an equal value; key order plays no part. Lists compare position by
   * position. Scalars of different constructors are never equal.
   */
  predicate Equiv(x: Tree, y: Tree) {
    match x
    case Obj(fs) =>
      && y.Obj?
      && |fs| == |y.fields|
      && forall i :: 0 <= i < |fs| ==> HasKey(y.fields, fs[i].0) && Equiv(fs[i].1, Get(y.fields, fs[i].0))
    case Arr(xs) =>
      && y.Arr?
      && |xs| == |y.items|
      && forall i :: 0 <= i < |xs| ==> Equiv(xs[i], y.items[i])
    case _ => x == y
  }

  /** Python's `x in xs` for a list `xs`. */
  predicate Contains(xs: seq<Tree>, x: Tree) {
    exists i :: 0 <= i < |xs| && Equiv(xs[i], x)
  }

  /**
   * `r` keeps everything `a` has: a mapping keeps its entries, at the same
   * positions and under the same keys, with values that extend the old ones; a
   * list is a prefix of the new list; any other value is unchanged.
   */
  predicate Extends(a: Tree, r: Tree) {
    match a
    case Obj(fs) =>
      && r.Obj?
      && |fs| <= |r.fields|
      && forall i :: 0 <= i < |fs| ==> r.fields[i].0 == fs[i].0 && Extends(fs[i].1, r.fields[i].1)
    case Arr(xs) => r.Arr? && |xs| <= |r.items| && r.items[..|xs|] == xs
    case _ => r == a
  }

  // ---- Facts about lookups ----

  lemma GetAt(fs: Fields, i: nat)
    requires DistinctKeys(fs) && i < |fs|
    ensures HasKey(fs, fs[i].0) && IndexOf(fs, fs[i].0) == i && Get(fs, fs[i].0) == fs[i].1
  {
    assert Keys(fs)[i] == fs[i].0;
  }

  lemma KeySetOf(fs: Fields)
    ensures forall k :: k in KeySet(fs) <==> HasKey(fs, k)
  {
    forall k ensures k in KeySet(fs) <==> HasKey(fs, k) {
      if HasKey(fs, k) {
        var i := IndexOf(fs, k);
        assert fs[i].0 in KeySet(fs);
      }
      if k in KeySet(fs) {
        var i :| 0 <= i < |fs| && fs[i].0 == k;
        assert Keys(fs)[i] == k;
      }
    }
  }

  /** A mapping with distinct keys has as many keys as entries. */
  lemma DistinctKeyCount(fs: Fields)
    requires DistinctKeys(fs)
    ensures |KeySet(fs)| == |fs|
  {
    if |fs| > 0 {
      var rest := fs[1..];
      DistinctKeyCount(rest);
      assert KeySet(fs) == {fs[0].0} + KeySet(rest) by {
        forall k | k in KeySet(fs) ensures k in {fs[0].0} + KeySet(rest) {
          var i :| 0 <= i < |fs| && fs[i].0 == k;
          if i > 0 { assert rest[i - 1].0 == k; }
        }
        forall k | k in KeySet(rest) ensures k in KeySet(fs) {
          var i :| 0 <= i < |rest| && rest[i].0 == k;
          assert fs[i + 1].0 == k;
        }
      }
      assert fs[0].0 !in KeySet(rest);
    }
  }

  // ---- Equality ----

  /** Python's `x == x` holds for every well-formed value. */
  lemma {:induction false} EquivReflexive(x: Tree)
    requires WF(x)
    ensures Equiv(x, x)
  {
    match x
    case Obj(fs) =>
      forall i | 0 <= i < |fs| ensures HasKey(fs, fs[i].0) && Equiv(fs[i].1, Get(fs, fs[i].0)) {
        GetAt(fs, i);
        EquivReflexive(fs[i].1);
      }
    case Arr(xs) =>
      forall i | 0 <= i < |xs| ensures Equiv(xs[i], xs[i]) {
        EquivReflexive(xs[i]);
      }
    case _ =>
  }

  /** Every element of a well-formed list is found in it. */
  lemma ContainsOwn(xs: seq<Tree>, i: nat)
    requires i < |xs| && WF(xs[i])
    ensures Contains(xs, xs[i])
  {
    EquivReflexive(xs[i]);
  }

  // ---- Extension ----

  lemma {:induction false} ExtendsReflexive(a: Tree)
    ensures Extends(a, a)
  {
    match a
    case Obj(fs) =>
      forall i | 0 <= i < |fs| ensures Extends(fs[i].1, fs[i].1) {
        ExtendsReflexive(fs[i].1);
      }
    case Arr(xs) =>
    case _ =>
  }

  lemma {:induction false} ExtendsTransitive(a: Tree, b: Tree, c: Tree)
    requires Extends(a, b) && Extends(b, c)
    ensures Extends(a, c)
  {
    match a
    case Obj(fs) =>
      forall i | 0 <= i < |fs| ensures c.fields[i].0 == fs[i].0 && Extends(fs[i].1, c.fields[i].1) {
        ExtendsTransitive(fs[i].1, b.fields[i].1, c.fields[i].1);
      }
    case Arr(xs) =>
      assert c.items[..|xs|] == c.items[..|b.items|][..|xs|];
    case _ =>
  }

  /** In a mapping with distinct keys, the key of entry `i` does not occur after it. */
  lemma NoLaterDuplicate(v: Fields, i: nat)
    requires i < |v| && DistinctKeys(v)
    ensures !HasKey(v[i + 1..], v[i].0)
  {
    var rest := v[i + 1..];
    forall t | 0 <= t < |rest| ensures Keys(rest)[t] != v[i].0 {
      assert rest[t] == v[i + 1 + t];
    }
  }
}
