# Azure region registry — Dafny model

This project models the region registry of the ManageIQ Azure provider
(`ManageIQ::Providers::Azure::Regions`). The registry holds a built-in, ordered
table `REGIONS` that maps a region key to a config carrying a `:name`. Its
`regions` and `names` operations return the effective table and its keys. These
are computed from two operator overrides in the `ems.ems_azure` settings
section:

- `additional_regions` maps a key to `{name: ...}`. These entries are merged
  into the table. A key given as a Ruby symbol appears as its string.
- `disabled_regions` lists keys that are then removed. Removal is applied after
  the merge, so a key that is both added and disabled is absent.

A missing `ems_azure` section, or a nil entry, means "no override".

The behaviour is taken from the registry's RSpec file,
`spec/models/manageiq/providers/azure/regions_spec.rb`. The implementation of
`ManageIQ::Providers::Azure::Regions` is not part of this model, so the model
follows what those tests assert. Where they leave something
open, it follows Ruby's own `Hash` semantics:

- `merge` overwrites an existing key where it stands and appends a new key.
- `except` drops the listed keys and keeps the rest in order.
- `Array(nil)` and `Hash(nil)` are empty.

Files:

- `wrappers.dfy`: `Option`, used for settings entries that may be nil.
- `region_table.dfy`: module `RegionTable`. The ordered hash as a sequence of
  `Region(key, name)` entries, with `Keys`, `Lookup`, `Put` (`hash[k] = v`),
  `Merge` (`Hash#merge`) and `Except` (`Hash#except`). Their contracts are
  stated in terms of the keys in order and the name stored for each key.
- `regions.dfy`: module `AzureRegions`. It holds the settings snapshot
  (`Option<AzureSettings>`), `Regions` and `Names`, the general properties, and
  one lemma per settings scenario of the test file.

The built-in table is a parameter `builtin` rather than a constant, because its
contents are not part of this model. Lemmas assume only what the tests rely on: keys are
unique (it is a Ruby Hash), and, for the gov-cloud scenarios,
`"usgoviowa" in Keys(builtin)`. Each scenario lemma therefore holds for every
such table.

## Model

| member | source | states |
|---|---|---|
| `RegionTable.Keys` | spec/models/manageiq/providers/azure/regions_spec.rb:53 | `REGIONS.keys`: one key per entry, each entry's key at its own position, in table order |
| `RegionTable.Lookup` | spec/models/manageiq/providers/azure/regions_spec.rb:63 | `config[:name]` for a key: a name is found exactly when the key is in the table |
| `RegionTable.Put` | spec/models/manageiq/providers/azure/regions_spec.rb:62-64 | inserting an entry keeps the key order when the key already exists and appends it otherwise; the key now has the new name and every other key keeps its name |
| `RegionTable.PutKeepsKeysUnique` | spec/models/manageiq/providers/azure/regions_spec.rb:62-64 | putting an entry into a hash whose keys are unique leaves them unique |
| `RegionTable.Merge` | spec/models/manageiq/providers/azure/regions_spec.rb:57-73 | after merging additions, a key is present exactly when it is in the table or among the added ones |
| `RegionTable.MergeKeepsOrder` | spec/models/manageiq/providers/azure/regions_spec.rb:46-73 | a merge keeps the table's keys first, in their order; every key after them is an added key the table lacked |
| `RegionTable.MergeKeepsKeysUnique` | spec/models/manageiq/providers/azure/regions_spec.rb:57-73 | merging into a hash whose keys are unique leaves them unique, even when the additions repeat a key |
| `RegionTable.MergeLookup` | spec/models/manageiq/providers/azure/regions_spec.rb:82-85 | after a merge, an added key carries the name of its last addition and every other key keeps its original name |
| `RegionTable.Except` | spec/models/manageiq/providers/azure/regions_spec.rb:39-41 | removing listed keys leaves exactly the unlisted keys in their order; listed keys have no entry and the others keep their names |
| `RegionTable.ExceptKeepsKeysUnique` | spec/models/manageiq/providers/azure/regions_spec.rb:39-41 | removing keys from a hash whose keys are unique leaves them unique |
| `RegionTable.ExceptNothing` | spec/models/manageiq/providers/azure/regions_spec.rb:29-32 | removing an empty list of keys leaves any hash exactly as it was |
| `RegionTable.MergeExceptIdempotent` | spec/models/manageiq/providers/azure/regions_spec.rb:91-94 | applying the same merge and removal a second time to the result changes nothing |
| `AzureRegions.KeyString` | spec/models/manageiq/providers/azure/regions_spec.rb:62-72 | a key given as the symbol `:"a"` and one given as the string `"a"` name the same region; the contract is carried by `AdditionalKeys` and `CustomRegionAdded` |
| `AzureRegions.DisabledRegions` | spec/models/manageiq/providers/azure/regions_spec.rb:28-42 | a missing `ems_azure` section or a nil `disabled_regions` disables nothing |
| `AzureRegions.AdditionalEntries` | spec/models/manageiq/providers/azure/regions_spec.rb:46-55 | a missing `ems_azure` section or a nil `additional_regions` adds nothing |
| `AzureRegions.AdditionalRegions` | spec/models/manageiq/providers/azure/regions_spec.rb:57-73 | the additions as hash entries under their string keys; `AdditionalKeys` states which keys they hold and `RegionNames` which name each carries |
| `AzureRegions.Regions` | spec/models/manageiq/providers/azure/regions_spec.rb:28-97 | `regions`: the built-in table merged with the additions, less the disabled keys; its contract is carried by `RegionNames`, `RegionsKeysUnique`, `NoOverridesIsIdentity` and `RegionsIdempotent` |
| `AzureRegions.Names` | spec/models/manageiq/providers/azure/regions_spec.rb:28-97 | `names`: the keys of `regions` in order; its contract is carried by `NamesMembership`, `DisablingRemovesOnlyListedKeys` and `DisablingEveryKeyLeavesNoNames` |
| `AzureRegions.RegionsKeysUnique` | spec/models/manageiq/providers/azure/regions_spec.rb:53 | `regions` over a built-in table with unique keys has unique keys, so each region is listed once |
| `AzureRegions.AdditionalKeys` | spec/models/manageiq/providers/azure/regions_spec.rb:62-72 | a key is added exactly when some `additional_regions` entry has that key, written as a symbol or a string |
| `AzureRegions.NamesMembership` | spec/models/manageiq/providers/azure/regions_spec.rb:28-97 | a key is in `names` exactly when it is built in or added, and it is not disabled; so disabling beats adding (both directions) |
| `AzureRegions.RegionNames` | spec/models/manageiq/providers/azure/regions_spec.rb:82-85 | a disabled key has no entry; a key that is not added keeps its built-in name; a key that is added but not built in carries the `:name` of the last `additional_regions` entry for it |
| `AzureRegions.NoOverridesIsIdentity` | spec/models/manageiq/providers/azure/regions_spec.rb:34-53 | with no section, or nil or empty overrides, `regions` is the built-in table and `names` the built-in key sequence (same keys, same order) |
| `AzureRegions.DisablingRemovesOnlyListedKeys` | spec/models/manageiq/providers/azure/regions_spec.rb:81-94 | the names with `disabled_regions` set are the names without it, less the listed keys, with the others in their order |
| `AzureRegions.DisablingEveryKeyLeavesNoNames` | spec/models/manageiq/providers/azure/regions_spec.rb:39-42 | when every built-in and every added key is disabled, `names` is empty |
| `AzureRegions.RegionsIdempotent` | spec/models/manageiq/providers/azure/regions_spec.rb:91-94 | resolving the effective table again under the same settings gives the same table, so nothing accumulates |
| `AzureRegions.GovCloudKeptWhenNothingDisabled` | spec/models/manageiq/providers/azure/regions_spec.rb:29-32 | with `disabled_regions: []` and any additions, the built-in `"usgoviowa"` is in `names` |
| `AzureRegions.GovCloudKeptWithoutSettingsSection` | spec/models/manageiq/providers/azure/regions_spec.rb:34-37 | with no `ems_azure` section, the built-in `"usgoviowa"` is in `names` |
| `AzureRegions.DisabledRegionLeftOut` | spec/models/manageiq/providers/azure/regions_spec.rb:39-42 | with `disabled_regions: ["usgoviowa"]` and any additions, `"usgoviowa"` is not in `names` |
| `AzureRegions.StandardRegionsWithoutAdditional` | spec/models/manageiq/providers/azure/regions_spec.rb:46-55 | with `additional_regions: nil`, `names` equals the built-in keys in order |
| `AzureRegions.CustomRegionAdded` | spec/models/manageiq/providers/azure/regions_spec.rb:57-74 | a region added under the symbol `:"my-custom-region-1"` is listed as the string `"my-custom-region-1"` and carries its `:name` |
| `AzureRegions.DisabledOverridesAdditional` | spec/models/manageiq/providers/azure/regions_spec.rb:76-96 | of two added regions, the one also in `disabled_regions` is not listed and the other one is |

## Left out

- The "has all the regions" check (regions_spec.rb:8-26) is not modelled. It compares the table against a live or recorded Azure location listing (`ems.connect`, `list_locations`, VCR cassettes, FactoryGirl records), which is network I/O through external libraries. The usgov/china/germany filter at :22 only serves that comparison.
- `Azure::Armrest::Configuration.clear_caches` (:5) is not modelled. It is cache housekeeping in an external gem.
- The ambient `Settings` object and its stubbing (`allow(...).to receive`, `stub_settings`) are not modelled. The settings snapshot is an explicit `Option<AzureSettings>` parameter.
- The contents of `REGIONS` are not modelled, because the implementation of the registry is not part of this model. The table is a parameter, constrained only as described above.
- Config fields other than `:name` are not modelled. They are passed through unread.
- `disabled_regions` entries are modelled as strings only. No test disables a key given as a symbol.
- RegionNames: says nothing about the name of a key that is both built in and added. The tests never exercise such a collision, so no lemma about `Regions` asserts overwrite or rejection. The model merges with Ruby's `Hash#merge` semantics, under which the added name wins (see `RegionTable.MergeLookup`).
