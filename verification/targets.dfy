/**
 * Destination targets and how commands pick them: `_get_subset_targets` and
 * `_resolve_central_target` in src/mcpset/cli.py.
 *
 * A target names one configuration file, its format ("json" or "toml") and the
 * key under which that file keeps its server map.
 */
module Targets {

  datatype Target = Target(name: string, path: string, kind: string, root: string)

  /** The old name `central` is accepted for `root`. */
  function Canonical(n: string): string {
    if n == "central" then "root" else n
  }

  /** The set of requested names after `central` has been rewritten to `root`. */
  function RequestedNames(names: seq<string>): (r: set<string>)
    ensures "central" !in r
    ensures "root" in r <==> "root" in names || "central" in names
    ensures forall n :: n != "root" && n != "central" ==> (n in r <==> n in names)
  {
    var r := set i | 0 <= i < |names| :: Canonical(names[i]);
    assert forall i :: 0 <= i < |names| ==> Canonical(names[i]) in r;
    r
  }

  /** `[t for t in targets if t.name in wanted]` */
  function Filter(targets: seq<Target>, wanted: set<string>): (r: seq<Target>)
    ensures |r| <= |targets|
  {
    if |targets| == 0 then []
    else (if targets[0].name in wanted then [targets[0]] else []) + Filter(targets[1..], wanted)
  }

  /** What `_get_subset_targets` returns, and the requested names it found no target for. */
  datatype Selection = Selection(chosen: seq<Target>, unknown: set<string>)

  /**
   * `_get_subset_targets(names, universe)`. An empty universe counts as absent
   * (Python's `universe or load_targets()`), and then the whole registry is
   * the starting list. No names select everything; otherwise the starting
   * list is filtered, in order, to the requested names.
   */
  function SubsetTargets(names: seq<string>, universe: seq<Target>, registry: seq<Target>): (r: Selection)
    ensures |names| == 0 ==> r.chosen == (if |universe| == 0 then registry else universe) && r.unknown == {}
    ensures |names| > 0 ==> forall t ::
      t in r.chosen <==> t in (if |universe| == 0 then registry else universe) && t.name in RequestedNames(names)
    ensures forall n :: n in r.unknown <==>
      |names| > 0 && n in RequestedNames(names)
      && forall t :: t in (if |universe| == 0 then registry else universe) ==> t.name != n
  {
    var base := if |universe| == 0 then registry else universe;
    if |names| == 0 then Selection(base, {})
    else
      var wanted := RequestedNames(names);
      var chosen := Filter(base, wanted);
      FilterMembers(base, wanted);
      Selection(chosen, wanted - set t | t in chosen :: t.name)
  }

  lemma {:induction false} FilterMembers(targets: seq<Target>, wanted: set<string>)
    ensures forall t :: t in Filter(targets, wanted) <==> t in targets && t.name in wanted
  {
    if |targets| > 0 {
      FilterMembers(targets[1..], wanted);
      assert targets == [targets[0]] + targets[1..];
    }
  }

  /** The filter keeps every copy of a kept target and drops every copy of another. */
  lemma {:induction false} FilterCount(targets: seq<Target>, wanted: set<string>, t: Target)
    ensures multiset(Filter(targets, wanted))[t] == if t.name in wanted then multiset(targets)[t] else 0
  {
    if |targets| > 0 {
      FilterCount(targets[1..], wanted, t);
      assert targets == [targets[0]] + targets[1..];
    }
  }

  /** The filter keeps order: filtering a concatenation filters each part in turn. */
  lemma {:induction false} FilterAppend(xs: seq<Target>, ys: seq<Target>, wanted: set<string>)
    ensures Filter(xs + ys, wanted) == Filter(xs, wanted) + Filter(ys, wanted)
  {
    if |xs| == 0 {
      assert xs + ys == ys;
    } else {
      var zs := xs + ys;
      assert zs[0] == xs[0] && zs[1..] == xs[1..] + ys;
      FilterAppend(xs[1..], ys, wanted);
      var head := if xs[0].name in wanted then [xs[0]] else [];
      calc {
        Filter(zs, wanted);
        head + Filter(xs[1..] + ys, wanted);
        head + (Filter(xs[1..], wanted) + Filter(ys, wanted));
        (head + Filter(xs[1..], wanted)) + Filter(ys, wanted);
        Filter(xs, wanted) + Filter(ys, wanted);
      }
    }
  }

  /** Selecting again with the same names changes nothing. */
  lemma SubsetIdempotent(names: seq<string>, universe: seq<Target>, registry: seq<Target>)
    ensures var once := SubsetTargets(names, universe, registry).chosen;
      |once| > 0 ==> SubsetTargets(names, once, registry).chosen == once
  {
    var base := if |universe| == 0 then registry else universe;
    if |names| > 0 {
      FilterTwice(base, RequestedNames(names));
    }
  }

  lemma {:induction false} FilterTwice(targets: seq<Target>, wanted: set<string>)
    ensures Filter(Filter(targets, wanted), wanted) == Filter(targets, wanted)
  {
    if |targets| > 0 {
      FilterTwice(targets[1..], wanted);
      var head := if targets[0].name in wanted then [targets[0]] else [];
      FilterAppend(head, Filter(targets[1..], wanted), wanted);
    }
  }

  /** `str(HOME / ".mcp" / "config.json")` for a normalised home directory. */
  function DefaultCentralPath(home: string): string {
    if |home| > 0 && home[|home| - 1] == '/' then home + ".mcp/config.json"
    else home + "/.mcp/config.json"
  }

  predicate IsCentralName(n: string) {
    n == "root" || n == "central"
  }

  /**
   * `_resolve_central_target`: the first target named `root` or `central`;
   * when there is none, a json target at ~/.mcp/config.json keyed `mcpServers`.
   */
  function ResolveCentral(targets: seq<Target>, home: string): (r: Target)
    ensures forall i :: (0 <= i < |targets| && IsCentralName(targets[i].name)
      && forall j :: 0 <= j < i ==> !IsCentralName(targets[j].name)) ==> r == targets[i]
    ensures (forall i :: 0 <= i < |targets| ==> !IsCentralName(targets[i].name)) ==>
      r == Target("root", DefaultCentralPath(home), "json", "mcpServers")
    ensures IsCentralName(r.name)
  {
    if |targets| == 0 then Target("root", DefaultCentralPath(home), "json", "mcpServers")
    else if IsCentralName(targets[0].name) then targets[0]
    else
      var r := ResolveCentral(targets[1..], home);
      assert forall i :: 1 <= i < |targets| ==> targets[i] == targets[1..][i - 1];
      r
  }
}
