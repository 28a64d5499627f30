/** CISettingsModel: rule settings of model importers; the preset lookup by asset path. */
module ModelSettings {
  import opened Wrappers
  import opened Host
  import opened Settings

  /**
    * GetPresetByRule: split the asset path at its last separator and take the preset of the first
    * rule that accepts it, else `defaultPreset` (Preset.GetDefaultForObject of the importer).
    */
  method GetPresetByRule(settings: CISettings, completePath: string, defaultPreset: Option<Preset>)
    returns (r: Result<Option<Preset>>)
    ensures r == SelectPreset(settings.rules, completePath, defaultPreset)
  {
    r := settings.GetPresetByRule(completePath, defaultPreset);
  }
}
