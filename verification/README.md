# mcpset merge core in Dafny

mcpset keeps the MCP server lists of several AI tools in step with one central
configuration file (`~/.mcp/config.json`, key `mcpServers`). Every tool's
configuration is a JSON or TOML file with a map from server name to server
entry under some root key. The commands are built on one policy, the
**append-only deep merge**. It never overwrites or removes anything that
exists: it only adds keys that are missing and list items that are absent.

This project models that merge and the policies built on it:

- `AppendOnlyMerge` (`append_only.dfy`): the merge. The source holds three
  identical copies: `_append_only` in `src/mcpset/cli.py`, and `append_only`
  in `src/mcpset/build_central_from_existing.py` and in
  `src/mcpset/merge_toml.py`. All three are the one function `AppendOnly`.
  The merge loop is proved equal to a declarative reference (`UpdateShared` +
  `NewEntries`), and that reference carries the main properties:
  - key order;
  - existing wins;
  - list union;
  - no regression;
  - idempotence;
  - stability.
- `ConfigTree` (`config_tree.dfy`): configuration trees. A mapping is a
  sequence of key/value pairs in insertion order, as a Python dict is.
  `SetKey` models `d[k] = v`. `Equiv` models Python's order-insensitive dict
  equality, which the source uses both for `x not in av` and for the
  "did anything change" test.
- `Targets` (`targets.dfy`): target selection with the `central` → `root`
  synonym (`_get_subset_targets`) and the choice of the central target
  (`_resolve_central_target`).
- `Templates` (`templates.dfy`): `_template_payload`. This covers:
  - the `--set KEY=VAL` parsing, split at the first `=`;
  - the `{{KEY}}` substitution over every string of a template, taking the
    value from `--set`, else from the environment (a map parameter), else
    leaving the placeholder as it was.
- `Sync` (`sync.dfy`):
  - `cmd_init`, which folds the source targets' servers into the central map;
  - `cmd_sync`, which merges the central map into each destination and
    rewrites only those that change, and counts the changes on a dry run.

  The file system is a map from path to the file's top-level mapping.
- `BuildCentral` (`build_central.dfy`): `build` in
  `build_central_from_existing.py`. It is a hand-written fold over cursor,
  claude_desktop and codex, with a provenance record per server. It looks only
  one level into a server entry. Two things are proved:
  - when no two server entries are both lists and nothing clashes below the
    first level, its merged map is exactly what `cmd_init`'s append-only
    collection makes of the same sources;
  - concrete trees where it differs from the merge: a deeper mapping, a list
    inside a shared sub-mapping, and a server entry that is itself a list.
- `MergeToml` (`merge_toml.dfy`): `main` in `merge_toml.py`. It is the
  server-level union of a Codex TOML table with the central servers, plus its
  report of `addedServers`, `addedKeys`, `addedEnvKeys` and
  `addedArrayItems`. A merged server holding a JSON null makes the run
  fail, because tomlkit cannot assign a null back into the table. The merged table is proved to be the top-level
  append-only merge seen as a map. For a server both sides have, each report
  field is proved to match what the merge appends when the matching values
  are of the same kind: `addedKeys` always, `addedEnvKeys` when both `env`
  values are mappings, and `addedArrayItems` where both values are lists.
  Concrete trees show where the report lists more than the merge added, when
  the kinds differ.
- `Wrappers` (`wrappers.dfy`): `Option` and `Result`.

## Model

| member | source | states |
|---|---|---|
| `AppendOnlyMerge.AppendOnly` | src/mcpset/cli.py:113-132 | The result is a mapping or a list exactly when the existing side is one; an existing scalar is returned unchanged whatever comes in |
| `AppendOnlyMerge.ListUnion` | src/mcpset/cli.py:130-131 | The existing list is a prefix of the result, and every later item comes from the incoming list and is not in the existing list (by Python equality) |
| `AppendOnlyMerge.ListUnionAppend` | src/mcpset/cli.py:130-131 | The appended items come in incoming order: a longer incoming list appends after what the shorter one gave, only its own unseen items |
| `AppendOnlyMerge.Unseen` | src/mcpset/cli.py:123 | `[x for x in bv if x not in av]`: every kept item is an incoming item that the existing list does not contain |
| `AppendOnlyMerge.UnseenAppend` | src/mcpset/cli.py:123 | The kept items stay in incoming order: filtering a concatenation filters each part in turn |
| `AppendOnlyMerge.UnseenHasNew` | src/mcpset/cli.py:123 | Every incoming item absent from the existing list is added |
| `AppendOnlyMerge.UnseenCount` | src/mcpset/cli.py:123 | The added tail holds each absent item as many times as the incoming list does, so duplicates inside the incoming list are not collapsed; a present item is never added |
| `AppendOnlyMerge.UnseenAllContained` | src/mcpset/cli.py:130-131 | When every incoming item is already present, nothing is appended |
| `AppendOnlyMerge.UnseenAllNew` | src/mcpset/cli.py:130-131 | When no incoming item is present, all are appended in order |
| `AppendOnlyMerge.MergeEntriesSpec` | src/mcpset/cli.py:115-129 | The loop over the incoming entries computes the existing entries in place (shared keys merged) followed by the incoming-only entries in incoming order |
| `AppendOnlyMerge.MergeObjects` | src/mcpset/cli.py:115-129 | The merge of two mappings equals that declarative reference |
| `AppendOnlyMerge.ObjectMerge` | src/mcpset/cli.py:115-126 | The existing keys come first in their original order; each keeps its value unless the incoming side shares the key, and then it holds the merge of the two values |
| `AppendOnlyMerge.NewEntriesFacts` | src/mcpset/cli.py:127-128 | Every incoming-only key is added, carrying the incoming value unchanged, in incoming order and without duplicates |
| `AppendOnlyMerge.MergedKeys` | src/mcpset/cli.py:115-129 | The merged keys are exactly the union of both key sets, and stay distinct |
| `AppendOnlyMerge.ExistingWins` | src/mcpset/cli.py:124-126 | A shared key whose two values are not both mappings or both lists keeps the existing value |
| `AppendOnlyMerge.NoRegression` | src/mcpset/cli.py:113-132 | Every key path, list prefix and scalar of the existing tree survives in the result |
| `AppendOnlyMerge.PreservesWF` | src/mcpset/build_central_from_existing.py:59-77 | Merging well-formed trees never creates a duplicate key at any level (this copy is the same function) |
| `AppendOnlyMerge.Idempotent` | src/mcpset/cli.py:113-132 | Merging a tree with itself returns it |
| `AppendOnlyMerge.Stable` | src/mcpset/merge_toml.py:38-58 | Merging the same incoming tree a second time changes nothing (this copy is the same function) |
| `AppendOnlyMerge.NewEntriesAllKnown` | src/mcpset/cli.py:117-118 | When every incoming key already exists, no entry is appended |
| `AppendOnlyMerge.NewEntriesAllNew` | src/mcpset/cli.py:127-128 | Into an empty mapping every incoming entry is copied, in order |
| `AppendOnlyMerge.MergesUniqueListItems` | tests/test_append_only.py:4-11 | The repository's example: `[1, 2]` with `[2, 3]` gives `[1, 2, 3]`, and `{c: 1}` with `{d: 4}` gives `{c: 1, d: 4}` |
| `AppendOnlyMerge.ListExample` | tests/test_append_only.py:10 | The list half of that example |
| `AppendOnlyMerge.NestedExample` | tests/test_append_only.py:11 | The nested-mapping half of that example |
| `AppendOnlyMerge.PreservesExistingScalars` | tests/test_append_only.py:14-21 | The repository's example: an existing scalar 1 stays 1 against 2, and the new key `b` is added |
| `AppendOnlyMerge.SameKeyMerge` | src/mcpset/cli.py:115-126 | Two one-key mappings under the same key merge into one key holding the merge of the two values |
| `AppendOnlyMerge.DisjointMerge` | src/mcpset/cli.py:115-129 | Two one-key mappings under different keys give the existing entry first and then the incoming entry unchanged |
| `AppendOnlyMerge.SharedAndNewMerge` | src/mcpset/cli.py:115-129 | An incoming mapping that shares the existing key and adds one more merges the shared value in place and appends the new entry |
| `AppendOnlyMerge.TwoKeyMerge` | src/mcpset/cli.py:115-126 | Two mappings with the same two keys in the same order merge value by value, the order kept and nothing appended |
| `AppendOnlyMerge.DistinctSingletons` | src/mcpset/cli.py:130-131 | Two one-item lists whose items differ give both items, the existing one first |
| `ConfigTree.SetKey` | src/mcpset/cli.py:596 | `d[k] = v`: an existing key keeps its position, a new one goes last, and every other key keeps its value |
| `Targets.RequestedNames` | src/mcpset/cli.py:161-164 | `central` is never requested. `root` is requested exactly when `root` or `central` was given, and any other name exactly when it was given |
| `Targets.FilterMembers` | src/mcpset/cli.py:165 | A target is kept exactly when it is in the list and its name is requested |
| `Targets.FilterCount` | src/mcpset/cli.py:165 | Each kept target occurs as often as in the input, and each dropped one never |
| `Targets.FilterAppend` | src/mcpset/cli.py:165 | The filter keeps order: filtering a concatenation filters each part in turn |
| `Targets.SubsetTargets` | src/mcpset/cli.py:157-169 | With no names, the starting list is returned unchanged. Otherwise exactly the starting targets with a requested name are chosen, and a name is reported unknown exactly when no starting target has it. An empty universe starts from the registry |
| `Targets.SubsetIdempotent` | src/mcpset/cli.py:157-169 | Selecting again with the same names from a non-empty selection returns it unchanged (an empty one starts again from the registry) |
| `Targets.FilterTwice` | src/mcpset/cli.py:165 | Filtering twice with the same names is filtering once |
| `Targets.ResolveCentral` | src/mcpset/cli.py:172-181 | The first target named `root` or `central`. When there is none, the json target `root` at `~/.mcp/config.json` keyed `mcpServers`. Either way it has a central name |
| `Templates.SplitFirst` | src/mcpset/cli.py:335-337 | No split exactly when there is no `=`; otherwise key + `=` + value is the item and the key holds no `=` |
| `Templates.ParseSets` | src/mcpset/cli.py:333-338 | Parsing fails exactly when some item has no `=`, and the error names the first such item |
| `Templates.ParseSetsLastWins` | src/mcpset/cli.py:337-338 | When every item is well formed, parsing succeeds, the keys are exactly the items' keys, and each key carries the value of its last item |
| `Templates.BraceFreeRun` | src/mcpset/cli.py:339 | The longest brace-free prefix, stopped by a brace or the end |
| `Templates.PlaceholderAt` | src/mcpset/cli.py:339 | A match is `{{KEY}}` at the start with KEY non-empty and brace-free |
| `Templates.PlaceholderComplete` | src/mcpset/cli.py:339 | Conversely every such `{{KEY}}` at the start is matched, with that key |
| `Templates.SubstituteUnbound` | src/mcpset/cli.py:343-346 | With neither `--set` values nor environment, a string is unchanged, because every placeholder stays verbatim |
| `Templates.SubstitutePlainPrefix` | src/mcpset/cli.py:346 | Text without an opening brace passes through unchanged |
| `Templates.PlaceholderReplaced` | src/mcpset/cli.py:343-346 | A placeholder becomes its `--set` value, else its environment value, else itself; the rest is substituted after it |
| `Templates.SubstituteTree` | src/mcpset/cli.py:341-351 | Substitution keeps the tree's shape: same constructors, list lengths, keys in order, and non-string scalars. A string becomes its substituted string, and each list item and mapping value is substituted in turn under the same key |
| `Templates.SubstituteAt` | src/mcpset/cli.py:341-351 | At every depth: the substituted tree has a subtree at exactly the template's paths, each string there is the substituted string, and each number, boolean or null is kept |
| `Templates.SubstituteTreeUnbound` | src/mcpset/cli.py:341-351 | With no bindings the template comes back unchanged |
| `Templates.TemplatePayload` | src/mcpset/cli.py:328-353 | An unknown template is the first error; then a malformed `--set` item is. On success the `--set` items parsed, and the payload is the template's data substituted with the parsed values and the environment |
| `Templates.PayloadStrings` | src/mcpset/cli.py:328-353 | With well-formed `--set` items the payload succeeds, and every string anywhere in the data comes out substituted with the parsed `--set` values and the environment |
| `Templates.SinglePlaceholder` | src/mcpset/cli.py:343-346 | A string that is one placeholder becomes its binding |
| `Templates.PayloadSetValue` | src/mcpset/cli.py:333-346 | A string `{{KEY}}` anywhere in the data becomes the value of the last `--set` item for KEY |
| `Templates.PayloadEnvValue` | src/mcpset/cli.py:343-346 | A string `{{KEY}}` that no `--set` item binds becomes the environment's value for KEY, and stays as it was when there is none |
| `Sync.ReadServers` | src/mcpset/cli.py:557-569 | The map under the root key when the format is known, the file exists and the value is a mapping; otherwise empty |
| `Sync.ReadServersWF` | src/mcpset/cli.py:557-569 | What is read from a well-formed file is well formed |
| `Sync.OtherThan` | src/mcpset/cli.py:578 | Exactly the targets not named like the central one |
| `Sync.OtherThanAppend` | src/mcpset/cli.py:578 | The filter keeps the targets' order: filtering a concatenation filters each part in turn |
| `Sync.CollectIsMerge` | src/mcpset/cli.py:581-588 | The per-name loop over one source equals the append-only merge of the two server maps |
| `Sync.CollectOneIsAppendOnly` | src/mcpset/cli.py:583-588 | The same, stated as `AppendOnly` at map level |
| `Sync.CollectNames` | src/mcpset/cli.py:581-588 | The collected names are the central names plus every source's names, each once |
| `Sync.CollectExtends` | src/mcpset/cli.py:581-588 | Collection never loses or alters what the central map held |
| `Sync.CollectSplit` | src/mcpset/cli.py:581 | Collecting a list of sources is collecting a prefix, then the rest |
| `Sync.EarlierSourcesWin` | src/mcpset/cli.py:581-588 | Whatever the first k sources produced, including every scalar, survives the later sources |
| `Sync.InitApply` | src/mcpset/cli.py:591-597 | Only the central file changes. Its root key holds the merged map, and its other keys and every other file are kept |
| `Sync.InitNames` | src/mcpset/cli.py:572-588 | `cmd_init` collects exactly the central names and the names of the sources it reads |
| `Sync.InitKeepsCentral` | src/mcpset/cli.py:572-588 | `cmd_init` never loses what the central file held |
| `Sync.SyncTarget` | src/mcpset/cli.py:621-656 | An unknown format is skipped. A rewrite happens only when the merge changed the root value (Python equality). It writes the merged value there and keeps every other key; "unchanged" means the merge changed nothing |
| `Sync.UnchangedHasAll` | src/mcpset/cli.py:626 | When the merge changes nothing, every central server was already present |
| `Sync.PreparedWF` | src/mcpset/cli.py:622-624 | The root value of a well-formed file stays well formed after preparation |
| `Sync.CentralNamesPresent` | src/mcpset/cli.py:621-635 | After syncing a json destination, every central server name is under its root key |
| `Sync.SyncKeepsExisting` | src/mcpset/cli.py:621-654 | No regression at a destination: its servers, list items and scalars survive |
| `Sync.SyncStable` | src/mcpset/cli.py:621-654 | Syncing a rewritten destination again finds nothing to do |
| `Sync.NonMappingRoot` | src/mcpset/cli.py:356-363 | A non-mapping root value: toml leaves the destination unchanged; json replaces it with the central servers |
| `Sync.SyncAll` | src/mcpset/cli.py:619-659 | A dry run writes nothing. The count is at most the number of destinations, and files that are not destinations are untouched |
| `Sync.DryRunCountsChanges` | src/mcpset/cli.py:626-633 | With distinct destination paths, a dry run counts exactly the changes the real run makes |
| `Sync.Rewritten` | src/mcpset/cli.py:626-633 | One flag per destination, in order, set exactly when that destination needs a rewrite |
| `Sync.CountTrueSplit` | src/mcpset/cli.py:633 | The number of set flags is the first flag plus the number in the rest |
| `Sync.SyncAllWrites` | src/mcpset/cli.py:626-633 | With distinct destination paths, a real run leaves each destination holding its merged document when it needed a rewrite, and exactly as it was otherwise |
| `Sync.SyncAllCounts` | src/mcpset/cli.py:626-633 | On a dry run, or a real run with distinct destination paths, the count is the number of destinations that need a rewrite |
| `Sync.JsonHoldsCentral` | src/mcpset/cli.py:621-633 | A json destination, once dealt with, holds every central server name under a mapping at its root key |
| `Sync.SyncCommand` | src/mcpset/cli.py:606-659 | A dry run writes nothing, and only the selected destinations can change |
| `Sync.SyncCommandEffect` | src/mcpset/cli.py:606-659 | The reported count is the number of selected destinations whose merge changes them. A real run with distinct destination paths writes each such destination's merged document and leaves every other one as it was |
| `Sync.SyncCommandCentralPresent` | src/mcpset/cli.py:606-659 | After a real run with distinct destination paths, every selected json destination holds every central server name |
| `Sync.SharedArgsExample` | tests/test_cli_commands.py:66-69 | The test's shared server: the destination's `cursor` argument stays first, and `central` follows |
| `Sync.ArgsExample` | tests/test_cli_commands.py:67-69 | The argument lists of that test merged |
| `Sync.SyncTestExample` | tests/test_cli_commands.py:40-69 | The test's destination gains `new` and keeps its own `shared` argument first |
| `BuildCentral.MergeEntryFrom` | src/mcpset/build_central_from_existing.py:155-187 | Folding a later source's entry never changes `introduced_by`, `sources` or `source_paths` |
| `BuildCentral.SetEachAppends` | src/mcpset/build_central_from_existing.py:171-172 | Setting the missing env variables one by one appends them in order |
| `BuildCentral.AddSubKeysSpec` | src/mcpset/build_central_from_existing.py:179-184 | The generic sub-mapping loop appends exactly the sub-keys the merged value lacks, in source order, and nothing deeper |
| `BuildCentral.SharedTopKeyValue` | src/mcpset/build_central_from_existing.py:165-187 | The env, list, generic-mapping and fall-through branches together set a shared key to the one-level merge of its two values: two mappings gain the missing sub-keys, two lists gain the unseen items, anything else is unchanged |
| `BuildCentral.MergeEntrySpec` | src/mcpset/build_central_from_existing.py:155-187 | The per-key loop gives the entry's own keys one-level merged in place, followed by the source's new keys with their values (new top-level keys added, existing scalars unchanged) |
| `BuildCentral.OneLevelWF` | src/mcpset/build_central_from_existing.py:165-184 | The one-level merge never creates a duplicate key |
| `BuildCentral.OneLevelAgrees` | src/mcpset/build_central_from_existing.py:165-184 | When no shared sub-key holds two mappings or two lists, the one-level merge of a key equals `append_only` |
| `BuildCentral.EntryAgreesWithMerge` | src/mcpset/build_central_from_existing.py:155-187 | When nothing clashes below the first level, folding an entry equals `append_only` on it |
| `BuildCentral.UpdatesAgree` | src/mcpset/build_central_from_existing.py:165-187 | The same agreement for the in-place part of the entry |
| `BuildCentral.DeepMappingDiverges` | src/mcpset/build_central_from_existing.py:179-184 | Three levels deep the fold keeps the old `a.b` while `append_only` adds the new key into it |
| `BuildCentral.DeepFold` | src/mcpset/build_central_from_existing.py:179-184 | The fold's side of that example |
| `BuildCentral.DeepMerge` | src/mcpset/build_central_from_existing.py:59-77 | The merge's side of that example |
| `BuildCentral.NestedListDiverges` | src/mcpset/build_central_from_existing.py:179-184 | A list inside a shared sub-mapping is left alone by the fold but extended by `append_only` |
| `BuildCentral.ListFold` | src/mcpset/build_central_from_existing.py:179-184 | The fold's side of that example: the entry is unchanged |
| `BuildCentral.ListMerge` | src/mcpset/build_central_from_existing.py:59-77 | The merge's side of that example: the inner list becomes `[1, 2]` |
| `BuildCentral.ServerStep` | src/mcpset/build_central_from_existing.py:136-187 | A server gets a record once it is merged. `sources` gains the source name once. `introduced_by` is kept, or set to this source for a new server. Other records are untouched. A new name takes the source's entry. A known entry stays as it was unless both it and the source's entry are mappings, and then it stays a mapping. Every other server keeps its name and entry |
| `BuildCentral.AddSource` | src/mcpset/build_central_from_existing.py:137 | Every merged server has a record and vice versa, after each source |
| `BuildCentral.BuildFrom` | src/mcpset/build_central_from_existing.py:136 | The same after the fold over all sources |
| `BuildCentral.AddSourceKeys` | src/mcpset/build_central_from_existing.py:137-187 | One source adds its names in the same order as the `cmd_init` loop does |
| `BuildCentral.BuildKeysMatchCollect` | src/mcpset/build_central_from_existing.py:136-187 | The fold's server names, in order, are those of the `cmd_init` collection of the same sources |
| `BuildCentral.BuildNames` | src/mcpset/build_central_from_existing.py:136-141 | The merged names are the union of the sources' names, each once |
| `BuildCentral.ServerStepMerges` | src/mcpset/build_central_from_existing.py:155-187 | When the known entry and the source's entry are both mappings, the new entry is the one-level merge: the entry's keys in place, each one-level merged, then the source's new keys in the source's order |
| `BuildCentral.ServerStepAgrees` | src/mcpset/build_central_from_existing.py:138-187 | When the two entries are not both lists and share nothing below the first level, one server step gives exactly the `cmd_init` collection step |
| `BuildCentral.AddSourceAgrees` | src/mcpset/build_central_from_existing.py:137-187 | Without such a clash, one source's loop gives exactly the `cmd_init` loop over that source, and the map stays well formed |
| `BuildCentral.BuildAgreesWithCollect` | src/mcpset/build_central_from_existing.py:136-187 | Without such a clash, `build`'s merged map is exactly the `cmd_init` collection of the same sources in the same order |
| `BuildCentral.ListServerDiverges` | src/mcpset/build_central_from_existing.py:185-187 | A server entry that is a list keeps the first source's list in the fold, while the `cmd_init` step takes the union `[1, 2]` |
| `BuildCentral.MergeKeyWF` | src/mcpset/cli.py:583-588 | One turn of the collection loop keeps the server map well formed |
| `BuildCentral.NamesOfCollect` | src/mcpset/cli.py:581-588 | A map with the collected names has distinct names, and they are exactly the sources' names |
| `BuildCentral.TotalServersCount` | src/mcpset/build_central_from_existing.py:195 | `total_servers` is the number of distinct names across the sources |
| `BuildCentral.Naming` | src/mcpset/build_central_from_existing.py:152-154 | The sources that name a server, in source order |
| `BuildCentral.ServerStepRecords` | src/mcpset/build_central_from_existing.py:138-154 | One server step keeps every record's first source equal to `introduced_by`, and appends the source to the named server's list once |
| `BuildCentral.AddSourceRecords` | src/mcpset/build_central_from_existing.py:137-154 | The same over one source's servers |
| `BuildCentral.BuildRecords` | src/mcpset/build_central_from_existing.py:136-154 | A server's record lists, in order, the sources naming it, as accumulated by the fold |
| `BuildCentral.SourcesOnce` | src/mcpset/build_central_from_existing.py:152-154 | With distinct source names, each naming source is listed exactly once, in first-seen order |
| `BuildCentral.ProvenanceSources` | src/mcpset/build_central_from_existing.py:136-154 | A server has a record exactly when some source names it. Its `sources` are those sources, once each, in order, and `introduced_by` is the first of them |
| `BuildCentral.NamingFirst` | src/mcpset/build_central_from_existing.py:138-141 | The first source listed is the first source that names the server |
| `BuildCentral.PresenceCount` | src/mcpset/build_central_from_existing.py:196-199 | `by_source_presence` of a source is the number of servers it names |
| `BuildCentral.StandardSourcesDistinct` | src/mcpset/build_central_from_existing.py:130-134 | cursor, claude_desktop and codex are distinct, so the above applies to `build` |
| `MergeToml.EnsureTable` | src/mcpset/merge_toml.py:81-87 | A missing or null entry becomes an empty table; a present one is kept; other keys are untouched |
| `MergeToml.CentralServers` | src/mcpset/merge_toml.py:110-112 | The central `mcpServers` when it is a mapping, otherwise empty |
| `MergeToml.MergeServers` | src/mcpset/merge_toml.py:124 | The merged names are exactly the existing names plus the central names |
| `MergeToml.MergeMain` | src/mcpset/merge_toml.py:119-180 | The report has an entry for exactly the merged names, and `addedServers` are exactly the merged names that did not exist |
| `MergeToml.MergeTable` | src/mcpset/merge_toml.py:108-167 | With tomlkit, a `mcp_servers` value that is not a table, not missing and not null makes the run fail. The exception is an empty string or empty array when there are no central servers to assign back: that run succeeds with an empty merge and no added servers. Into a missing or null table the central servers are copied as they are, and an existing table is merged with them |
| `MergeToml.MergeDocument` | src/mcpset/merge_toml.py:161-165 | The run fails exactly when the table merge fails or a merged server holds a null, which tomlkit cannot assign back; a successful run's servers hold no null |
| `MergeToml.MergeDocumentIsAppendOnly` | src/mcpset/merge_toml.py:108-165 | On an existing table, the merged table is the top-level `append_only` of the table and the central servers, and the run succeeds exactly when no merged server holds a null |
| `MergeToml.NullServerFails` | src/mcpset/merge_toml.py:163-165 | A central server `{"env": null}` makes the run fail on a target without `mcp_servers` |
| `MergeToml.NothingExisting` | src/mcpset/merge_toml.py:150-151 | Into an empty table every central server is copied unchanged |
| `MergeToml.MergeIsAppendOnly` | src/mcpset/merge_toml.py:124-151 | The merged table is the top-level `append_only` of the two server maps, seen as a map |
| `MergeToml.WholeEntry` | src/mcpset/merge_toml.py:147-151 | Per name, the merged entry is the merge of both entries when both sides have the server. It is the existing entry when only the target has it, and the central entry when only the central side has it |
| `MergeToml.NonMappingCentral` | src/mcpset/merge_toml.py:110-112 | A central `mcpServers` that is not a mapping leaves the table exactly as it was and adds no servers |
| `MergeToml.MergedEntries` | src/mcpset/merge_toml.py:147-151 | Existing servers lose nothing, and new servers are copied whole |
| `MergeToml.AddedKeysMatchMerge` | src/mcpset/merge_toml.py:131-133 | For a shared server, `addedKeys` are exactly the keys the merge appends, in order |
| `MergeToml.AddedEnvKeysMatchMerge` | src/mcpset/merge_toml.py:135-137 | For a shared server whose `env` is a mapping on both sides, the merged `env` is the merge of the two, and its keys are the existing env keys followed by exactly the reported `addedEnvKeys`, in order |
| `MergeToml.AddedKeysAreMissing` | src/mcpset/merge_toml.py:131 | `addedKeys` holds a key exactly when the central entry has it and the existing one does not |
| `MergeToml.NewArrayItems` | src/mcpset/merge_toml.py:141-146 | Only non-empty lists are recorded, at most one per central key |
| `MergeToml.ArrayItemsMatchMerge` | src/mcpset/merge_toml.py:141-147 | Where both values are lists, the recorded items are exactly the tail the merge appends, and an empty tail is not recorded |
| `MergeToml.NewArrayItemsAt` | src/mcpset/merge_toml.py:141-146 | The recorded items at a key are the central items missing from the existing list at that key, with a non-list counted as empty |
| `MergeToml.NewArrayItemsKeys` | src/mcpset/merge_toml.py:141-146 | Only keys of the central entry are recorded |
| `MergeToml.ArrayReportOverstates` | src/mcpset/merge_toml.py:143 | Where the existing value is not a list, the report lists every central item although the merge keeps the existing value |
| `MergeToml.EnvReportOverstates` | src/mcpset/merge_toml.py:136-137 | Where the existing `env` is not a mapping, every central env key is reported although the merge keeps the existing value |
| `MergeToml.NewServerReportsAll` | src/mcpset/merge_toml.py:152-159 | A brand-new server reports all of its keys, all of its env keys and every one of its lists |
| `MergeToml.ListsOfKeeps` | src/mcpset/merge_toml.py:157-159 | Every list-valued entry is recorded, and nothing else |
| `MergeToml.AddedServersAreNew` | src/mcpset/merge_toml.py:173 | `addedServers` are the central servers the target did not have |

## Left out

- File input and output are not modelled: reading, atomic writing, path expansion, `tomlkit` and `json` parsing, and `_to_plain`. `_to_plain` is the identity on plain trees. Files are their parsed top-level mappings. A file whose top level is not a mapping makes the source fail, and is not modelled.
- Key order in written files is not modelled. `_save_json_atomic` writes JSON with sorted keys, and the model keeps insertion order. Python compares mappings without regard to order, so no decision in the model depends on it.
- `cmd_init --apply` reads the central file with the JSON loader even when the central target is TOML. The model treats the central file as the parsed mapping it stands for.
- Console output, warnings, argparse and the `--json` listing are not modelled: they only print.
- Clipboard commands, `cmd_add`, `cmd_remove`, `cmd_list` and `remove_from_toml.py` are outside the merge core.
- Floats and Python's cross-type equalities (`True == 1`, `1 == 1.0`) are not modelled: scalars are distinct constructors.
- Aliasing and in-place mutation are made explicit. `build` stores a source's own dict as the merged entry and mutates it afterwards; the model copies instead. The source never reads those dicts again, so the results agree.
- The home directory is a parameter and is assumed normalised. The default central path is `home` + `/.mcp/config.json`.
- `MergeToml.MergeDocument`: follows the tomlkit path only. A non-empty array of values is indexed by position under tomlkit and is not modelled (it is treated as a failure). The fallback `toml` path, which replaces the table by the merged dict and turns a non-table value into a dict, is not modelled either.
- `MergeToml.MergeMain`: `merge_toml.py` visits names in `set` order, which is not fixed. So the merged table and the per-server report are maps and `addedServers` is a set. The order in which the tomlkit path assigns new servers back into the table is not modelled.
- `BuildCentral.MergeEntryFrom`: the `added_keys`, `added_env_keys` and `added_array_items` logs of a later source are computed as the source does. No lemma states their content beyond the entry they describe.
- `BuildCentral.Presence` counts over the provenance map, where the source counts over the merged names. `BuildCentral.BuildFrom` proves the two name sets equal.
- `Sync.SyncAll`: a real run that assigns a central server holding a JSON null into a TOML destination fails in tomlkit (`tbl[key] = value`). The run then stops, and the remaining destinations are not processed. The model treats that destination as rewritten, so `Sync.SyncAllWrites` and `Sync.SyncCommandEffect` promise its write and the later ones. A dry run is not affected.
- Unreadable destination formats are skipped with a warning. `Sync.SyncTarget` reports them as `Unsupported`.
