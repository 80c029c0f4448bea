# Configuration store of the GitHub Release Monitor (grm), modelled in Dafny

This project models the configuration store in `src/grm/config/config.go`. The store is an
INI file held in memory. It maps a section header to a map from an effective key to a value.
The effective key is a bare key name (`download-url`) or a key with a specifier
(`download-url:my-repo`). The model covers:

- **The fixed schema** (`schema.dfy`, module `Schema`). There is one named section template,
  `Remote "%s"`. There are ten keys, each with its `overloadable` and `exportable` flags. The two
  reverse-lookup tables are `sectionLookup` and `keyLookup`. The module also holds the string
  builders `buildSectionName` and `buildOverloadedKey` and the parsers `KeyLookup`,
  `SectionLookup` and `ExtractSpecifier`. The Go `strings.Split`, `strings.Contains` and
  `fmt.Sprintf` calls they make are modelled in `strings.dfy` (module `Strings`) by the first
  occurrence of a separator (`Find`).
- **The store as a value** (`ini_store.dfy`, module `IniStore`). `Resolve` is the
  override-resolution rule of `sectionGet`. `Set`, `Remove` and `Drop` are the three edits of the
  INI store. `Overrides` is the prefix scan of the `*GetOverrides` methods. `NamedHeaders` is the
  header filter of `NamedSections`. `Edit` is a datatype with one constructor per `Mutator`
  method, and `ApplyEdits` folds a batch of edits over the store.
- **The `configuration` object** (`config.dfy`, module `Config`). The class `Configuration` has
  these fields: the loaded store (`None` stands for the nil `*goini.INI` left when no file
  exists), the home directory, and the list of snapshots written to the configuration file. The
  read methods copy or filter a section with loops over its entries. The mutator methods change
  the store in place. `ApplyChanges` creates an empty store when none was loaded, performs the
  edits in order, and then persists exactly once.

A Go `log.Fatal` on a named/unnamed accessor mismatch becomes a precondition: `!section.named`
for the unnamed accessors and `section.named` for the named ones. In a batch, the same
condition is `Edit.WellKinded`.

Where the code's behaviour may be unexpected, the model follows the code:

- `NamedSections` returns whole header strings such as `Remote "acme"`, not instance names. It
  also lists a header that is just `Remote`, or one that starts with `Remote "` without a closing
  quote, because `SectionLookup` maps those to `Remote` as well (`SectionLookupExactly`).
- The `*GetOverrides` methods keep each entry under its full `key:specifier` name, not under the
  bare specifier.
- `SectionSet` and `NamedSectionSet` do not check the overloadable flag. A non-empty specifier on
  a key that is not overloadable is written under `key:specifier`, and no get will ever read it
  back (`SetOfPlainKeyWithSpecifierIsUnread`).
- The `sectionLookup` table's key `Remote` is spelled separately from the template
  `Remote "%s"` in `config.go:79-84`. The model writes both with the one constant `RemoteWord`.

The INI library `goini` is not part of this model. These are the behaviours the model assumes
for it:

- `goini.New()` yields an empty store (no sections).
- `GetKvmap` returns a section's map when the section is present.
- `SectionGet` returns `("", false)` when the section or the key is missing.
- `SectionSet` creates a missing section.
- `Delete` removes one key and keeps the section, even when the section becomes empty.
- `GetAll` returns the live map of sections, so `delete` on it removes a section from the store.
- Reloading the written file gives back exactly the written store (`ParseFile(Write(s)) == s`).
  A line-based INI text cannot carry every string, so this holds only for strings the format
  carries unchanged: for example, not for a line break in a header, key or value, or for `=`
  in a key. See the `Config.SetThenReload` line under "Left out".

## Model

| member | source | states |
|---|---|---|
| Schema.BuildSectionName | src/grm/config/config.go:364-366 | `buildSectionName`: the instance name substituted for the `%s` of the section's template (`RemoteHeader` gives the closed form) |
| Schema.BuildOverloadedKey | src/grm/config/config.go:368-370 | `buildOverloadedKey`: the key's bare name, a colon, then the specifier |
| Schema.KeyLookup | src/grm/config/config.go:132-135 | `KeyLookup(raw)` is `keyLookup[Split(raw, ":")[0]]`, None on a miss (`KeyLookupExactly` characterises it) |
| Schema.SectionLookup | src/grm/config/config.go:137-143 | `SectionLookup(raw)` is `sectionLookup[raw]` for a header without a space, else `sectionLookup[Split(raw, " \"")[0]]`, None on a miss |
| Schema.ExtractSpecifier | src/grm/config/config.go:145-155 | token 1 of the split on `:` when there is a colon, else token 1 of the split on `"` when there are two quotes, else `""` |
| IniStore.Get | src/grm/config/config.go:259-264 | the INI store's `SectionGet`: the value under one raw key of one header, `("", false)` when the header or the key is missing |
| IniStore.Resolve | src/grm/config/config.go:258-265 | `sectionGet`: `key:specifier` first for an overloadable key and a non-empty specifier, the bare key otherwise or on a miss |
| IniStore.EffectiveKey | src/grm/config/config.go:281-284 | the `keySpace` every mutator addresses: `key:specifier` for a non-empty specifier, the bare name otherwise (also config.go:293-296, 314-317, 326-329) |
| IniStore.Overrides | src/grm/config/config.go:192-196 | the entries whose raw key starts with `key:`, under their full names (also the scan at config.go:247-251) |
| IniStore.NamedHeaders | src/grm/config/config.go:204-209 | the stored headers that `SectionLookup` maps back to the given section |
| IniStore.ApplyEdit | src/grm/config/config.go:267-331 | the store after one `Mutator` call: `Drop`, `Set` or `Remove` on the header and effective key the call addresses |
| IniStore.ApplyEdits | src/grm/config/config.go:333-339 | the store after the batch's `Mutator` calls, applied first to last |
| Schema.KeyTableEntries | src/grm/config/config.go:101-112 | every entry of `keyLookup` is one of the ten registered keys, filed under its own name |
| Schema.KeyTableCoversKeys | src/grm/config/config.go:87-112 | every registered key is in `keyLookup` under its own name |
| Schema.SectionTableEntries | src/grm/config/config.go:79-85 | `sectionLookup` holds only `Remote`, under the word `Remote` |
| Schema.KeyNameHasNoColon | src/grm/config/config.go:88-98 | no registered key name contains a colon |
| Schema.RemoteHeader | src/grm/config/config.go:364-366 | the header of instance `n` is `Remote "n"` |
| Schema.SectionNameInjective | src/grm/config/config.go:364-366 | different instance names give different headers |
| Schema.KeyLookupFindsOnlyPrefix | src/grm/config/config.go:132-135 | whatever `KeyLookup` finds is a registered key whose name is the raw string or its part before a colon |
| Schema.KeyLookupFindsPrefix | src/grm/config/config.go:132-135 | a registered key is found from its bare name and from every string starting with `name:` |
| Schema.KeyLookupExactly | src/grm/config/config.go:132-135 | `KeyLookup(raw)` is `k` if and only if `raw` is `k`'s name or starts with `k`'s name and a colon; any other string gives no key |
| Schema.KeyLookupOfOverloadedKey | src/grm/config/config.go:368-370 | `KeyLookup(buildOverloadedKey(k, s)) == k` and `KeyLookup(k.name) == k` for every registered key and every specifier |
| Schema.SectionLookupExactly | src/grm/config/config.go:137-143 | `SectionLookup(raw)` is `Remote` if and only if `raw` is `Remote` or starts with `Remote "`; any other header gives no section |
| Schema.SectionLookupOfSectionName | src/grm/config/config.go:137-143 | `SectionLookup(buildSectionName(Remote, n)) == Remote` for every instance name |
| Schema.ExtractSpecifierOfOverloadedKey | src/grm/config/config.go:145-149 | `ExtractSpecifier(key:s) == s` when neither the key name nor `s` has a colon |
| Schema.ExtractSpecifierOfSectionName | src/grm/config/config.go:150-153 | `ExtractSpecifier(Remote "n") == n` when `n` has no double quote and no colon |
| Schema.ExtractSpecifierOfPlainName | src/grm/config/config.go:145-155 | a string with no colon and at most one double quote gives `""` |
| IniStore.Set | src/grm/config/config.go:276-286 | after a set, exactly one entry reads as the new value, the section exists, and every other entry of every section reads as before |
| IniStore.Remove | src/grm/config/config.go:288-298 | after a key delete, exactly one entry reads as absent, the set of sections is unchanged, and every other entry reads as before |
| IniStore.Drop | src/grm/config/config.go:267-274 | after a section delete, the header is gone, every other section is unchanged, and nothing reads from the deleted section |
| IniStore.OverrideTakesPrecedence | src/grm/config/config.go:258-263 | for an overloadable key, a non-empty specifier and a present `key:specifier` entry, the result is that entry's value with ok true |
| IniStore.FallsBackToBareKey | src/grm/config/config.go:258-265 | a key that is not overloadable, an empty specifier, or a missing override gives exactly the bare key's lookup |
| IniStore.SpecifierIgnoredWhenNotOverloadable | src/grm/config/config.go:259-264 | for a key that is not overloadable, any two specifiers give the same answer, namely the bare key's |
| IniStore.ResolveFound | src/grm/config/config.go:258-265 | ok is true if and only if the bare key or an applicable override is present; a miss returns `""` |
| IniStore.ResolveThroughOverrides | src/grm/config/config.go:238-263 | for an overloadable key and a non-empty specifier, the get returns the matching entry of the override scan, or else the bare key |
| IniStore.OverridesBelongToKey | src/grm/config/config.go:244-251 | every entry of the override scan for a registered key parses back to that key, and to its specifier when the specifier has no colon |
| IniStore.SetThenResolve | src/grm/config/config.go:309-319 | a set followed by a get with the same specifier returns `(value, true)` when the specifier is empty or the key is overloadable |
| IniStore.SetOfPlainKeyWithSpecifierIsUnread | src/grm/config/config.go:309-319 | a set of a key that is not overloadable with a non-empty specifier changes no get result |
| IniStore.DeleteThenResolve | src/grm/config/config.go:321-331 | a bare delete makes the empty-specifier get miss; a specifier delete removes the `key:specifier` entry |
| IniStore.OverridesAfterSet | src/grm/config/config.go:309-319 | a bare set leaves the override scan unchanged; a specifier set adds exactly the entry `key:specifier` with the new value |
| IniStore.EditTouchesOnlyItsSection | src/grm/config/config.go:267-331 | every mutator leaves every other section, and its presence, unchanged |
| IniStore.OtherInstancesUnchanged | src/grm/config/config.go:300-331 | an edit of one `Remote` instance changes no get result of another instance |
| IniStore.DeleteRemovesSection | src/grm/config/config.go:300-307 | after a section delete, the header is absent and every get under it misses |
| IniStore.ApplyEditsConcat | src/grm/config/config.go:333-339 | two batches applied one after the other give the same store as their concatenation applied at once |
| IniStore.NamedHeadersOfRemote | src/grm/config/config.go:202-211 | the headers listed for `Remote` are exactly the stored headers that are `Remote` or start with `Remote "` |
| IniStore.InstanceListed | src/grm/config/config.go:202-211 | a stored instance header is listed, and its instance name is read back from it when the name has no quote and no colon |
| IniStore.NamedHeadersAfterEdit | src/grm/config/config.go:300-319 | a named set adds the instance header to the listing; a named delete removes exactly that header |
| Config.CopyEntries | src/grm/config/config.go:164-169 | the loop's copy equals the section's map |
| Config.FilterOverrides | src/grm/config/config.go:190-197 | the loop keeps exactly the entries whose key starts with `key:`, with their values |
| Config.Configuration.constructor | src/grm/config/config.go:114-130 | the store is the parsed file, or absent when there is no file; nothing has been written yet |
| Config.Configuration.Section | src/grm/config/config.go:157-172 | a copy of the unnamed section's map, or the empty map when the section is absent |
| Config.Configuration.SectionGet | src/grm/config/config.go:174-180 | the override-resolution result for the unnamed section |
| Config.Configuration.SectionGetOverrides | src/grm/config/config.go:182-200 | the prefix scan of the unnamed section, empty when the section is absent |
| Config.Configuration.NamedSections | src/grm/config/config.go:202-211 | each header that `SectionLookup` maps to the section appears exactly once, and no other header appears |
| Config.Configuration.NamedSection | src/grm/config/config.go:213-228 | a copy of the instance's map, or the empty map when it is absent |
| Config.Configuration.NamedSectionGet | src/grm/config/config.go:230-236 | the override-resolution result for the instance's header |
| Config.Configuration.NamedSectionGetOverrides | src/grm/config/config.go:238-256 | the prefix scan of the instance's section, empty when the section is absent |
| Config.Configuration.sectionGet | src/grm/config/config.go:258-265 | the two probes of `sectionGet` return the override-resolution result |
| Config.Configuration.Delete | src/grm/config/config.go:267-274 | the store loses the unnamed section's header and nothing else |
| Config.Configuration.SectionSet | src/grm/config/config.go:276-286 | the store gets the value under the effective key of the unnamed section |
| Config.Configuration.SectionDelete | src/grm/config/config.go:288-298 | the store loses the effective key of the unnamed section |
| Config.Configuration.NamedDelete | src/grm/config/config.go:300-307 | the store loses the instance's header and nothing else |
| Config.Configuration.NamedSectionSet | src/grm/config/config.go:309-319 | the store gets the value under the effective key of the instance's section |
| Config.Configuration.NamedSectionDelete | src/grm/config/config.go:321-331 | the store loses the effective key of the instance's section |
| Config.Configuration.Perform | src/grm/config/config.go:28-35 | one mutator call changes the store as the corresponding edit does |
| Config.Configuration.ApplyChanges | src/grm/config/config.go:333-339 | the store is the batch applied to the loaded store, or to an empty one; exactly one snapshot is written, and it equals the resulting store |
| Config.Configuration.Persist | src/grm/config/config.go:341-362 | a present store is written once; an absent store writes nothing |
| Config.SetThenReload | src/grm/config/config.go:114-130 | a value set through `ApplyChanges` is read back with ok true from a configuration loaded from the written file |

## Left out

- The parsing and writing of the INI text by `goini` (`ParseFile`, `Write`) is not part of this
  model. The constructor takes the parsed file as a parameter, and a write is recorded as a
  snapshot of the store.
- The file-system work in `NewConfiguration` and `store` is left out as I/O: path joining,
  `os.Stat`, `os.MkdirAll`, `os.Create`, and the `log.Fatal` on their failures. Only "no file
  means no store" is kept. The `println` after writing is left out too.
- `log.Fatal` on a named/unnamed mismatch is a precondition, not a process exit.
- A read or a mutator call while no store is loaded dereferences a nil `*goini.INI` in the
  source. The model makes this a precondition (`ini.Some?`).
- Go's map iteration order is not modelled. The loops pick entries in an arbitrary order, and
  `NamedSections` promises no order.
- `BuildSectionName` interprets only the `%s` verb of `fmt.Sprintf`, plus Go's `%!(EXTRA ...)`
  suffix for a template with no verb. Other verbs, and `%%`, in a template are not modelled.
  The only named template, `Remote "%s"`, uses just `%s`.
- Config.SetThenReload: the reloaded configuration is built from the written snapshot itself, so
  the round trip assumes that `goini` writes and parses back every store unchanged. A value or
  specifier with a line break, or a specifier with `=`, may not survive the INI text in the
  program; the model does not capture that loss.
- `ApplyChanges` takes its edits as a list (`seq<Edit>`) instead of a Go closure. A closure that
  reads the configuration between its edits is not modelled.
- The `exportable` flag is part of the schema, but no operation in `config.go` reads it. The
  export and import commands, the encryption of passwords, the machine key and the command-line
  wiring are in `src/grm/main.go` and are not part of this model.
