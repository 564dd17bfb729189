/**
 * The region registry of the Azure provider. `REGIONS` is the built-in ordered
 * table of regions; `regions` and `names` give the effective table after the two
 * operator overrides of the `ems.ems_azure` settings section: the entries of
 * `additional_regions` are merged in, then the keys of `disabled_regions` are
 * removed, so a key that is both added and disabled is absent.
 */
module AzureRegions {
  import opened Wrappers
  import opened RegionTable

  /** A hash key as written in settings: a Ruby symbol or a string. */
  datatype SettingKey = Sym(id: string) | Str(id: string)

  /** The config given for an additional region. */
  datatype RegionConfig = RegionConfig(name: string)

  /** One entry of `additional_regions`, in the order the settings list them. */
  datatype AdditionalRegion = AdditionalRegion(key: SettingKey, config: RegionConfig)

  /** The `ems.ems_azure` settings section; an entry that is not set reads as nil. */
  datatype AzureSettings = AzureSettings(
    disabledRegions: Option<seq<string>>,
    additionalRegions: Option<seq<AdditionalRegion>>)

  /** `key.to_s`: a symbol and a string spelled alike name the same region. */
  function KeyString(k: SettingKey): string {
    k.id
  }

  /** `disabled_regions`, where a missing section or a nil entry means none. */
  function DisabledRegions(settings: Option<AzureSettings>): (ds: seq<string>)
    ensures settings.None? || settings.value.disabledRegions.None? ==> ds == []
  {
    if settings.None? then [] else settings.value.disabledRegions.GetOr([])
  }

  /** `additional_regions` as listed, where a missing section or a nil entry means none. */
  function AdditionalEntries(settings: Option<AzureSettings>): (es: seq<AdditionalRegion>)
    ensures settings.None? || settings.value.additionalRegions.None? ==> es == []
  {
    if settings.None? then [] else settings.value.additionalRegions.GetOr([])
  }

  /** The additional regions as hash entries, their keys turned into strings. */
  function AdditionalRegions(settings: Option<AzureSettings>): Table {
    var adds := AdditionalEntries(settings);
    seq(|adds|, i requires 0 <= i < |adds| => Region(KeyString(adds[i].key), adds[i].config.name))
  }

  /** `Regions.regions`: the built-in table, merged with the additions, less the disabled keys. */
  function Regions(builtin: Table, settings: Option<AzureSettings>): Table {
    Except(Merge(builtin, AdditionalRegions(settings)), DisabledRegions(settings))
  }

  /** Over a built-in table with unique keys, the effective table has unique keys. */
  lemma RegionsKeysUnique(builtin: Table, settings: Option<AzureSettings>)
    requires UniqueKeys(builtin)
    ensures UniqueKeys(Regions(builtin, settings))
  {
    MergeKeepsKeysUnique(builtin, AdditionalRegions(settings));
    ExceptKeepsKeysUnique(Merge(builtin, AdditionalRegions(settings)), DisabledRegions(settings));
  }

  /** `Regions.names`: the keys of the effective table, in order. */
  function Names(builtin: Table, settings: Option<AzureSettings>): seq<string> {
    Keys(Regions(builtin, settings))
  }

  /** Settings that override nothing: no section, or nil or empty entries. */
  predicate NoOverrides(settings: Option<AzureSettings>) {
    settings.None? ||
    ((settings.value.disabledRegions.None? || settings.value.disabledRegions.value == []) &&
     (settings.value.additionalRegions.None? || settings.value.additionalRegions.value == []))
  }

  /** A key listed in `additional_regions` reads, as a string, as a key of the additions. */
  lemma AdditionalKeys(settings: Option<AzureSettings>, k: string)
    ensures k in Keys(AdditionalRegions(settings))
      <==> exists e :: e in AdditionalEntries(settings) && KeyString(e.key) == k
  {
    var adds, t := AdditionalEntries(settings), AdditionalRegions(settings);
    if k in Keys(t) {
      var i :| 0 <= i < |t| && Keys(t)[i] == k;
      assert adds[i] in adds;
    }
    if e :| e in adds && KeyString(e.key) == k {
      var i :| 0 <= i < |adds| && adds[i] == e;
      assert Keys(t)[i] == k;
    }
  }

  /**
   * A key is listed exactly when it is built in or added, and not disabled:
   * disabling wins over adding, and removal touches only the disabled keys.
   */
  lemma NamesMembership(builtin: Table, settings: Option<AzureSettings>, k: string)
    ensures k in Names(builtin, settings) <==>
      (k in Keys(builtin) || exists e :: e in AdditionalEntries(settings) && KeyString(e.key) == k)
      && k !in DisabledRegions(settings)
  {
    AdditionalKeys(settings, k);
  }

  /**
   * The name the effective table carries for a key: none when it is disabled,
   * the built-in one for a built-in key that is not added, and the name of the
   * last additional entry for an added key that is not built in.
   */
  lemma RegionNames(builtin: Table, settings: Option<AzureSettings>, k: string)
    ensures k in DisabledRegions(settings) ==> Lookup(Regions(builtin, settings), k) == None
    ensures k !in DisabledRegions(settings) && k !in Keys(AdditionalRegions(settings))
      ==> Lookup(Regions(builtin, settings), k) == Lookup(builtin, k)
    ensures k !in DisabledRegions(settings) && k !in Keys(builtin) && k in Keys(AdditionalRegions(settings)) ==>
      var adds := AdditionalEntries(settings);
      exists i :: 0 <= i < |adds| && KeyString(adds[i].key) == k
        && (forall j :: i < j < |adds| ==> KeyString(adds[j].key) != k)
        && Lookup(Regions(builtin, settings), k) == Some(adds[i].config.name)
  {
    var adds, t := AdditionalEntries(settings), AdditionalRegions(settings);
    var drop := DisabledRegions(settings);
    var m := Merge(builtin, t);
    assert Lookup(Regions(builtin, settings), k) == if k in drop then None else Lookup(m, k);
    MergeLookup(builtin, t, k);
    if k in Keys(t) {
      LastAdditionalEntry(settings, k);
    }
  }

  /** The additions give a key the name of the last entry listed under it. */
  lemma LastAdditionalEntry(settings: Option<AzureSettings>, k: string)
    requires k in Keys(AdditionalRegions(settings))
    ensures var adds := AdditionalEntries(settings);
      exists i :: 0 <= i < |adds| && KeyString(adds[i].key) == k
        && (forall j :: i < j < |adds| ==> KeyString(adds[j].key) != k)
        && Lookup(AdditionalRegions(settings), k) == Some(adds[i].config.name)
  {
    var adds, t := AdditionalEntries(settings), AdditionalRegions(settings);
    var i := IndexOf(t, k);
    assert KeyString(adds[i].key) == k;
    assert forall j :: i < j < |adds| ==> KeyString(adds[j].key) == t[j].key;
  }

  /** With no overrides the names are the built-in keys in order, and the effective table is the built-in one. */
  lemma NoOverridesIsIdentity(builtin: Table, settings: Option<AzureSettings>)
    requires NoOverrides(settings)
    ensures Regions(builtin, settings) == builtin
    ensures Names(builtin, settings) == Keys(builtin)
  {
    assert AdditionalRegions(settings) == [];
    assert DisabledRegions(settings) == [];
    assert Merge(builtin, []) == builtin;
    ExceptNothing(builtin);
  }

  /** Disabling keys removes those keys from the names and leaves the others in their order. */
  lemma DisablingRemovesOnlyListedKeys(builtin: Table, disabled: seq<string>, additional: Option<seq<AdditionalRegion>>)
    ensures Names(builtin, Some(AzureSettings(Some(disabled), additional)))
      == Without(Names(builtin, Some(AzureSettings(None, additional))), disabled)
  {
    WithoutNoneListed(Keys(Merge(builtin, AdditionalRegions(Some(AzureSettings(None, additional))))), []);
  }

  /** Disabling every built-in and every added key leaves no names at all. */
  lemma DisablingEveryKeyLeavesNoNames(builtin: Table, settings: Option<AzureSettings>)
    requires forall k :: k in Keys(builtin) ==> k in DisabledRegions(settings)
    requires forall k :: k in Keys(AdditionalRegions(settings)) ==> k in DisabledRegions(settings)
    ensures Names(builtin, settings) == []
  {
    WithoutAllListed(Keys(Merge(builtin, AdditionalRegions(settings))), DisabledRegions(settings));
  }

  /** Resolving the effective table once more under the same settings changes nothing. */
  lemma RegionsIdempotent(builtin: Table, settings: Option<AzureSettings>)
    requires UniqueKeys(builtin)
    ensures Regions(Regions(builtin, settings), settings) == Regions(builtin, settings)
  {
    MergeExceptIdempotent(builtin, AdditionalRegions(settings), DisabledRegions(settings));
  }

  // The scenarios of the registry's settings-driven behaviour.

  /** `disabled_regions: []` keeps the built-in gov-cloud region, whatever the additions. */
  lemma GovCloudKeptWhenNothingDisabled(builtin: Table, additional: Option<seq<AdditionalRegion>>)
    requires "usgoviowa" in Keys(builtin)
    ensures "usgoviowa" in Names(builtin, Some(AzureSettings(Some([]), additional)))
  {
    NamesMembership(builtin, Some(AzureSettings(Some([]), additional)), "usgoviowa");
  }

  /** With no `ems_azure` section at all the gov-cloud region is still listed. */
  lemma GovCloudKeptWithoutSettingsSection(builtin: Table)
    requires "usgoviowa" in Keys(builtin)
    ensures "usgoviowa" in Names(builtin, None)
  {
    NoOverridesIsIdentity(builtin, None);
  }

  /** `disabled_regions: ["usgoviowa"]` removes it, whatever the additions. */
  lemma DisabledRegionLeftOut(builtin: Table, additional: Option<seq<AdditionalRegion>>)
    ensures "usgoviowa" !in Names(builtin, Some(AzureSettings(Some(["usgoviowa"]), additional)))
  {
    NamesMembership(builtin, Some(AzureSettings(Some(["usgoviowa"]), additional)), "usgoviowa");
  }

  /** `additional_regions: nil` gives exactly the built-in keys, in order. */
  lemma StandardRegionsWithoutAdditional(builtin: Table)
    ensures Names(builtin, Some(AzureSettings(None, None))) == Keys(builtin)
  {
    NoOverridesIsIdentity(builtin, Some(AzureSettings(None, None)));
  }

  /** A region added under a symbol key is listed under its string form, with its name. */
  lemma CustomRegionAdded(builtin: Table)
    ensures var settings := Some(AzureSettings(None, Some([
        AdditionalRegion(Sym("my-custom-region-1"), RegionConfig("My First Custom Region"))])));
      && "my-custom-region-1" in Names(builtin, settings)
      && Lookup(Regions(builtin, settings), "my-custom-region-1") == Some("My First Custom Region")
  {
    var settings := Some(AzureSettings(None, Some([
        AdditionalRegion(Sym("my-custom-region-1"), RegionConfig("My First Custom Region"))])));
    var adds := AdditionalRegions(settings);
    assert adds == [Region("my-custom-region-1", "My First Custom Region")];
    assert Lookup(adds, "my-custom-region-1") == Some("My First Custom Region");
    MergeLookup(builtin, adds, "my-custom-region-1");
    assert DisabledRegions(settings) == [];
  }

  /** Of two added regions, the one also disabled is left out and the other stays. */
  lemma DisabledOverridesAdditional(builtin: Table)
    ensures var settings := Some(AzureSettings(Some(["my-custom-region-2"]), Some([
        AdditionalRegion(Sym("my-custom-region-1"), RegionConfig("My First Custom Region")),
        AdditionalRegion(Sym("my-custom-region-2"), RegionConfig("My Second Custom Region"))])));
      && "my-custom-region-1" in Names(builtin, settings)
      && "my-custom-region-2" !in Names(builtin, settings)
  {
    var settings := Some(AzureSettings(Some(["my-custom-region-2"]), Some([
        AdditionalRegion(Sym("my-custom-region-1"), RegionConfig("My First Custom Region")),
        AdditionalRegion(Sym("my-custom-region-2"), RegionConfig("My Second Custom Region"))])));
    NamesMembership(builtin, settings, "my-custom-region-1");
    NamesMembership(builtin, settings, "my-custom-region-2");
  }
}
