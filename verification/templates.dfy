/**
 * Templates: `_template_payload` in src/mcpset/cli.py. A template's `data`
 * tree is copied with every `{{KEY}}` placeholder in every string replaced by
 * the `--set KEY=VAL` value, else by the environment variable KEY, else left
 * as it was. The environment is a parameter.
 */
module Templates {
  import opened Wrappers
  import opened ConfigTree

  type Env = map<string, string>

  // ---- `--set KEY=VAL` items ----

  /** Splitting at the first `=`: `s.split("=", 1)`, or nothing when `s` has no `=`. */
  function SplitFirst(s: string): (r: Option<(string, string)>)
    ensures r.None? <==> '=' !in s
    ensures r.Some? ==> r.value.0 + "=" + r.value.1 == s && '=' !in r.value.0
  {
    if |s| == 0 then None
    else if s[0] == '=' then Some(("", s[1..]))
    else match SplitFirst(s[1..])
      case None => None
      case Some((k, v)) =>
        assert s == [s[0]] + s[1..];
        Some(([s[0]] + k, v))
  }

  /** The `--set` loop: items are read in order, the first one without `=` is an error, a later item for a key wins. */
  function ParseSets(sets: seq<string>, kv: Env): (r: Result<Env, string>)
    ensures r.Failure? <==> exists i :: 0 <= i < |sets| && '=' !in sets[i]
    ensures r.Failure? ==> exists i :: (0 <= i < |sets| && '=' !in sets[i] && r.error == sets[i]
      && forall j :: 0 <= j < i ==> '=' in sets[j])
  {
    if |sets| == 0 then Success(kv)
    else match SplitFirst(sets[0])
      case None => Failure(sets[0])
      case Some((k, v)) =>
        var r := ParseSets(sets[1..], kv[k := v]);
        assert forall i :: 1 <= i < |sets| ==> sets[i] == sets[1..][i - 1];
        r
  }

  /** The key and value a well-formed item stands for. */
  function ItemKey(s: string): string
    requires '=' in s
  {
    SplitFirst(s).value.0
  }

  function ItemValue(s: string): string
    requires '=' in s
  {
    SplitFirst(s).value.1
  }

  /** A well-formed first item is applied, then the rest are parsed. */
  lemma ParseSetsStep(sets: seq<string>, kv: Env)
    requires |sets| > 0 && '=' in sets[0]
    ensures ParseSets(sets, kv) == ParseSets(sets[1..], kv[ItemKey(sets[0]) := ItemValue(sets[0])])
  {
  }

  /** Every item well-formed: parsing succeeds. */
  lemma {:induction false} ParseSetsSucceeds(sets: seq<string>, kv: Env)
    requires forall i :: 0 <= i < |sets| ==> '=' in sets[i]
    ensures ParseSets(sets, kv).Success?
  {
    if |sets| > 0 {
      ParseSetsStep(sets, kv);
      ParseSetsSucceeds(sets[1..], kv[ItemKey(sets[0]) := ItemValue(sets[0])]);
    }
  }

  /** The parsed keys are the starting keys and those of the items. */
  lemma {:induction false} ParseSetsKeys(sets: seq<string>, kv: Env)
    requires forall i :: 0 <= i < |sets| ==> '=' in sets[i]
    ensures ParseSets(sets, kv).Success?
    ensures forall k :: k in ParseSets(sets, kv).value <==>
      k in kv || exists i :: 0 <= i < |sets| && ItemKey(sets[i]) == k
  {
    ParseSetsSucceeds(sets, kv);
    if |sets| > 0 {
      var rest := sets[1..];
      assert forall i :: 1 <= i < |sets| ==> sets[i] == rest[i - 1];
      ParseSetsStep(sets, kv);
      ParseSetsKeys(rest, kv[ItemKey(sets[0]) := ItemValue(sets[0])]);
    }
  }

  /** An item no later item overrides gives its key its value. */
  lemma {:induction false} ParseSetsLastItem(sets: seq<string>, kv: Env, i: nat)
    requires forall i :: 0 <= i < |sets| ==> '=' in sets[i]
    requires i < |sets| && forall j :: i < j < |sets| ==> ItemKey(sets[j]) != ItemKey(sets[i])
    ensures ParseSets(sets, kv).Success?
    ensures ItemKey(sets[i]) in ParseSets(sets, kv).value
    ensures ParseSets(sets, kv).value[ItemKey(sets[i])] == ItemValue(sets[i])
  {
    ParseSetsStep(sets, kv);
    var rest := sets[1..];
    var kv' := kv[ItemKey(sets[0]) := ItemValue(sets[0])];
    if i == 0 {
      ParseSetsUntouched(rest, kv', ItemKey(sets[0]));
    } else {
      assert forall j :: i - 1 < j < |rest| ==> rest[j] == sets[j + 1];
      ParseSetsLastItem(rest, kv', i - 1);
    }
  }

  /** A starting key no item names keeps its value. */
  lemma {:induction false} ParseSetsUntouched(sets: seq<string>, kv: Env, k: string)
    requires forall i :: 0 <= i < |sets| ==> '=' in sets[i]
    requires k in kv && forall i :: 0 <= i < |sets| ==> ItemKey(sets[i]) != k
    ensures ParseSets(sets, kv).Success?
    ensures k in ParseSets(sets, kv).value && ParseSets(sets, kv).value[k] == kv[k]
  {
    ParseSetsSucceeds(sets, kv);
    if |sets| > 0 {
      var rest := sets[1..];
      assert forall i :: 0 <= i < |rest| ==> rest[i] == sets[i + 1];
      ParseSetsStep(sets, kv);
      ParseSetsUntouched(rest, kv[ItemKey(sets[0]) := ItemValue(sets[0])], k);
    }
  }

  /** Every item parsed: the keys are those of the items, and each key carries its last item's value. */
  lemma {:induction false} ParseSetsLastWins(sets: seq<string>, kv: Env)
    requires forall i :: 0 <= i < |sets| ==> '=' in sets[i]
    ensures ParseSets(sets, kv).Success?
    ensures forall k :: k in ParseSets(sets, kv).value <==>
      k in kv || exists i :: 0 <= i < |sets| && ItemKey(sets[i]) == k
    ensures forall i :: 0 <= i < |sets| && (forall j :: i < j < |sets| ==> ItemKey(sets[j]) != ItemKey(sets[i])) ==>
      ParseSets(sets, kv).value[ItemKey(sets[i])] == ItemValue(sets[i])
    ensures forall k :: k in kv && (forall i :: 0 <= i < |sets| ==> ItemKey(sets[i]) != k) ==>
      ParseSets(sets, kv).value[k] == kv[k]
  {
    ParseSetsKeys(sets, kv);
    forall i | 0 <= i < |sets| && (forall j :: i < j < |sets| ==> ItemKey(sets[j]) != ItemKey(sets[i]))
      ensures ParseSets(sets, kv).value[ItemKey(sets[i])] == ItemValue(sets[i])
    {
      ParseSetsLastItem(sets, kv, i);
    }
    forall k | k in kv && (forall i :: 0 <= i < |sets| ==> ItemKey(sets[i]) != k)
      ensures ParseSets(sets, kv).value[k] == kv[k]
    {
      ParseSetsUntouched(sets, kv, k);
    }
  }

  // ---- Placeholders ----

  predicate IsBrace(c: char) {
    c == '{' || c == '}'
  }

  /** The longest prefix of `s` without braces. */
  function BraceFreeRun(s: string): (r: string)
    ensures |r| <= |s| && r == s[..|r|]
    ensures forall j :: 0 <= j < |r| ==> !IsBrace(r[j])
    ensures |r| < |s| ==> IsBrace(s[|r|])
  {
    if |s| == 0 || IsBrace(s[0]) then []
    else [s[0]] + BraceFreeRun(s[1..])
  }

  /**
   * Whether `\{\{([^{}]+)\}\}` matches at the start of `s`, and the captured
   * key if so. Because the key cannot hold a brace, the match is the longest
   * brace-free run after `{{`, which must be non-empty and followed by `}}`.
   */
  function PlaceholderAt(s: string): (r: Option<string>)
    ensures r.Some? ==> (|r.value| > 0 && (forall j :: 0 <= j < |r.value| ==> !IsBrace(r.value[j]))
      && |r.value| + 4 <= |s| && s[..|r.value| + 4] == "{{" + r.value + "}}")
  {
    if |s| >= 2 && s[0] == '{' && s[1] == '{' then
      var key := BraceFreeRun(s[2..]);
      if |key| > 0 && |key| + 4 <= |s| && s[|key| + 2] == '}' && s[|key| + 3] == '}' then
        assert s[..|key| + 4] == "{{" + key + "}}" by {
          assert s[2..][..|key|] == s[2..|key| + 2];
        }
        Some(key)
      else None
    else None
  }

  /** A placeholder is found exactly when `s` starts with `{{KEY}}` for a non-empty brace-free KEY. */
  lemma PlaceholderComplete(s: string, key: string)
    requires |key| > 0 && forall j :: 0 <= j < |key| ==> !IsBrace(key[j])
    requires |key| + 4 <= |s| && s[..|key| + 4] == "{{" + key + "}}"
    ensures PlaceholderAt(s) == Some(key)
  {
    var run := BraceFreeRun(s[2..]);
    assert s[2..][..|key|] == key;
    assert s[2..][|key|] == '}';
    RunIsLongest(s[2..], key);
  }

  lemma {:induction false} RunIsLongest(s: string, key: string)
    requires |key| < |s| && s[..|key|] == key && IsBrace(s[|key|])
    requires forall j :: 0 <= j < |key| ==> !IsBrace(key[j])
    ensures BraceFreeRun(s) == key
  {
    if |key| > 0 {
      assert s[0] == key[0];
      RunIsLongest(s[1..], key[1..]);
    }
  }

  /** `kv.get(key, os.environ.get(key, m.group(0)))` */
  function Resolve(key: string, kv: Env, env: Env): string {
    if key in kv then kv[key]
    else if key in env then env[key]
    else "{{" + key + "}}"
  }

  /** `pattern.sub(repl, s)`: scan left to right, replacing each placeholder and copying every other character. */
  function Substitute(s: string, kv: Env, env: Env): string
    decreases |s|
  {
    if |s| == 0 then ""
    else match PlaceholderAt(s)
      case Some(key) => Resolve(key, kv, env) + Substitute(s[|key| + 4..], kv, env)
      case None => [s[0]] + Substitute(s[1..], kv, env)
  }

  /** With no bindings at all, every placeholder stays verbatim and the string is unchanged. */
  lemma {:induction false} SubstituteUnbound(s: string, kv: Env, env: Env)
    requires kv == map[] && env == map[]
    ensures Substitute(s, kv, env) == s
    decreases |s|
  {
    if |s| > 0 {
      match PlaceholderAt(s)
      case Some(key) =>
        SubstituteUnbound(s[|key| + 4..], kv, env);
        assert s == s[..|key| + 4] + s[|key| + 4..];
      case None =>
        SubstituteUnbound(s[1..], kv, env);
        assert s == [s[0]] + s[1..];
    }
  }

  /** A string not starting with `{` keeps its first character and goes on after it. */
  lemma PlainHead(s: string, kv: Env, env: Env)
    requires |s| > 0 && s[0] != '{'
    ensures Substitute(s, kv, env) == [s[0]] + Substitute(s[1..], kv, env)
  {
    assert PlaceholderAt(s).None?;
  }

  /** Text without an opening brace is copied unchanged, and the rest is substituted on its own. */
  lemma {:induction false} SubstitutePlainPrefix(t: string, s: string, kv: Env, env: Env)
    requires '{' !in t
    ensures Substitute(t + s, kv, env) == t + Substitute(s, kv, env)
    decreases |t|
  {
    if |t| > 0 {
      var ts := t + s;
      assert t == [t[0]] + t[1..];
      assert ts[0] == t[0] && ts[1..] == t[1..] + s;
      PlainHead(ts, kv, env);
      SubstitutePlainPrefix(t[1..], s, kv, env);
      assert [t[0]] + (t[1..] + Substitute(s, kv, env)) == ([t[0]] + t[1..]) + Substitute(s, kv, env);
    } else {
      assert t + s == s;
    }
  }

  /** A placeholder followed by other text becomes its binding followed by that text substituted. */
  lemma PlaceholderReplaced(key: string, s: string, kv: Env, env: Env)
    requires |key| > 0 && forall j :: 0 <= j < |key| ==> !IsBrace(key[j])
    ensures Substitute("{{" + key + "}}" + s, kv, env) == Resolve(key, kv, env) + Substitute(s, kv, env)
  {
    var whole := "{{" + key + "}}" + s;
    assert whole[..|key| + 4] == "{{" + key + "}}";
    PlaceholderComplete(whole, key);
    assert whole[|key| + 4..] == s;
  }

  // ---- Trees ----

  /** `sub(v)`: strings are substituted, lists and mappings are rebuilt element by element, keys are left alone. */
  function SubstituteTree(t: Tree, kv: Env, env: Env): (r: Tree)
    ensures SameShape(t, r)
    ensures t.Str? ==> r == Str(Substitute(t.s, kv, env))
    ensures t.Arr? ==> forall i :: 0 <= i < |t.items| ==> r.items[i] == SubstituteTree(t.items[i], kv, env)
    ensures t.Obj? ==> forall i :: 0 <= i < |t.fields| ==>
      r.fields[i] == (t.fields[i].0, SubstituteTree(t.fields[i].1, kv, env))
  {
    match t
    case Str(s) => Str(Substitute(s, kv, env))
    case Arr(xs) => Arr(seq(|xs|, i requires 0 <= i < |xs| => SubstituteTree(xs[i], kv, env)))
    case Obj(fs) => Obj(seq(|fs|, i requires 0 <= i < |fs| => (fs[i].0, SubstituteTree(fs[i].1, kv, env))))
    case _ => t
  }

  /**
   * `r` is `t` with possibly other strings: the same constructors, the same
   * list lengths, the same keys in the same order, the same non-string scalars.
   */
  predicate SameShape(t: Tree, r: Tree) {
    match t
    case Str(_) => r.Str?
    case Arr(xs) => r.Arr? && |r.items| == |xs| && forall i :: 0 <= i < |xs| ==> SameShape(xs[i], r.items[i])
    case Obj(fs) => r.Obj? && |r.fields| == |fs|
      && forall i :: 0 <= i < |fs| ==> r.fields[i].0 == fs[i].0 && SameShape(fs[i].1, r.fields[i].1)
    case _ => r == t
  }

  /** The subtree at a path of positions: each step picks a list item or a mapping entry's value. */
  function At(t: Tree, p: seq<nat>): Option<Tree>
    decreases |p|
  {
    if |p| == 0 then Some(t)
    else match t
      case Arr(xs) => if p[0] < |xs| then At(xs[p[0]], p[1..]) else None
      case Obj(fs) => if p[0] < |fs| then At(fs[p[0]].1, p[1..]) else None
      case _ => None
  }

  /**
   * Substitution at every depth: the substituted tree has a subtree at exactly
   * the paths the template has one. A string there is the substituted string,
   * and a number, boolean or null is kept.
   */
  lemma {:induction false} SubstituteAt(t: Tree, kv: Env, env: Env, p: seq<nat>)
    ensures var r := SubstituteTree(t, kv, env);
      && (At(r, p).Some? <==> At(t, p).Some?)
      && (At(t, p).Some? && At(t, p).value.Str? ==> At(r, p) == Some(Str(Substitute(At(t, p).value.s, kv, env))))
      && (At(t, p).Some? && IsScalar(At(t, p).value) && !At(t, p).value.Str? ==> At(r, p) == At(t, p))
    decreases |p|
  {
    if |p| > 0 {
      match t
      case Arr(xs) =>
        if p[0] < |xs| {
          SubstituteAt(xs[p[0]], kv, env, p[1..]);
        }
      case Obj(fs) =>
        if p[0] < |fs| {
          SubstituteAt(fs[p[0]].1, kv, env, p[1..]);
        }
      case _ =>
    }
  }

  /** With no bindings, substitution returns the template unchanged. */
  lemma {:induction false} SubstituteTreeUnbound(t: Tree)
    ensures SubstituteTree(t, map[], map[]) == t
  {
    match t
    case Str(s) => SubstituteUnbound(s, map[], map[]);
    case Arr(xs) =>
      forall i | 0 <= i < |xs| ensures SubstituteTree(xs[i], map[], map[]) == xs[i] {
        SubstituteTreeUnbound(xs[i]);
      }
    case Obj(fs) =>
      forall i | 0 <= i < |fs| ensures SubstituteTree(fs[i].1, map[], map[]) == fs[i].1 {
        SubstituteTreeUnbound(fs[i].1);
      }
    case _ =>
  }

  // ---- The payload ----

  datatype TemplateError =
    | UnknownTemplate(name: string)
    | MalformedSet(item: string)

  /** `templates[name].get("data", {})`: a template without `data` yields an empty mapping. */
  function TemplateData(template: Fields): Tree {
    if HasKey(template, "data") then Get(template, "data") else Obj([])
  }

  /**
   * `_template_payload(name, sets)`: an unknown template name is an error
   * first; then a malformed `--set` item is; otherwise the template's data
   * with placeholders filled in.
   */
  function TemplatePayload(name: string, templates: map<string, Fields>, sets: seq<string>, env: Env)
    : (r: Result<Tree, TemplateError>)
    ensures name !in templates <==> r == Failure(UnknownTemplate(name))
    ensures name in templates ==>
      ((exists i :: 0 <= i < |sets| && '=' !in sets[i]) <==> r.Failure? && r.error.MalformedSet?)
    ensures r.Success? ==> SameShape(TemplateData(templates[name]), r.value)
    ensures r.Success? ==>
      (&& ParseSets(sets, map[]).Success?
       && r.value == SubstituteTree(TemplateData(templates[name]), ParseSets(sets, map[]).value, env))
  {
    if name !in templates then Failure(UnknownTemplate(name))
    else match ParseSets(sets, map[])
      case Failure(item) => Failure(MalformedSet(item))
      case Success(kv) => Success(SubstituteTree(TemplateData(templates[name]), kv, env))
  }

  /**
   * Every string anywhere in a template's data, once the `--set` items are
   * well formed, comes out with its placeholders resolved against the parsed
   * `--set` values and then the environment.
   */
  lemma PayloadStrings(name: string, templates: map<string, Fields>, sets: seq<string>, env: Env, p: seq<nat>)
    requires name in templates && forall i :: 0 <= i < |sets| ==> '=' in sets[i]
    ensures var r := TemplatePayload(name, templates, sets, env);
      var data := TemplateData(templates[name]);
      && r.Success? && ParseSets(sets, map[]).Success?
      && (At(data, p).Some? && At(data, p).value.Str? ==>
            At(r.value, p) == Some(Str(Substitute(At(data, p).value.s, ParseSets(sets, map[]).value, env))))
  {
    var r := TemplatePayload(name, templates, sets, env);
    SubstituteAt(TemplateData(templates[name]), ParseSets(sets, map[]).value, env, p);
  }

  /** A string that is one placeholder becomes its binding. */
  lemma SinglePlaceholder(key: string, kv: Env, env: Env)
    requires |key| > 0 && forall j :: 0 <= j < |key| ==> !IsBrace(key[j])
    ensures Substitute("{{" + key + "}}", kv, env) == Resolve(key, kv, env)
  {
    PlaceholderReplaced(key, "", kv, env);
    assert "{{" + key + "}}" + "" == "{{" + key + "}}";
    assert Substitute("", kv, env) == "";
  }

  /** A string that is one placeholder whose key a `--set` item binds, and no later item rebinds, becomes that item's value. */
  lemma PayloadSetValue(name: string, templates: map<string, Fields>, sets: seq<string>, env: Env, p: seq<nat>, i: nat)
    requires name in templates && forall j :: 0 <= j < |sets| ==> '=' in sets[j]
    requires i < |sets| && forall j :: i < j < |sets| ==> ItemKey(sets[j]) != ItemKey(sets[i])
    requires |ItemKey(sets[i])| > 0 && forall j :: 0 <= j < |ItemKey(sets[i])| ==> !IsBrace(ItemKey(sets[i])[j])
    requires At(TemplateData(templates[name]), p) == Some(Str("{{" + ItemKey(sets[i]) + "}}"))
    ensures TemplatePayload(name, templates, sets, env).Success?
    ensures At(TemplatePayload(name, templates, sets, env).value, p) == Some(Str(ItemValue(sets[i])))
  {
    var key := ItemKey(sets[i]);
    PayloadStrings(name, templates, sets, env, p);
    ParseSetsLastWins(sets, map[]);
    var kv := ParseSets(sets, map[]).value;
    assert key in kv && kv[key] == ItemValue(sets[i]);
    SinglePlaceholder(key, kv, env);
  }

  /** A placeholder no `--set` item binds takes the environment's value when there is one, and otherwise stays. */
  lemma PayloadEnvValue(name: string, templates: map<string, Fields>, sets: seq<string>, env: Env, p: seq<nat>, key: string)
    requires name in templates && forall j :: 0 <= j < |sets| ==> '=' in sets[j]
    requires forall j :: 0 <= j < |sets| ==> ItemKey(sets[j]) != key
    requires |key| > 0 && forall j :: 0 <= j < |key| ==> !IsBrace(key[j])
    requires At(TemplateData(templates[name]), p) == Some(Str("{{" + key + "}}"))
    ensures TemplatePayload(name, templates, sets, env).Success?
    ensures At(TemplatePayload(name, templates, sets, env).value, p)
      == Some(Str(if key in env then env[key] else "{{" + key + "}}"))
  {
    PayloadStrings(name, templates, sets, env, p);
    ParseSetsLastWins(sets, map[]);
    var kv := ParseSets(sets, map[]).value;
    assert key !in kv;
    SinglePlaceholder(key, kv, env);
  }
}
