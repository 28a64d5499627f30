/** CISettingsTexture: rule settings of texture importers; the preset lookup by asset path. */
module TextureSettings {
  import opened Wrappers
  import opened Host
  import opened Settings

  /**
    * GetTexturePresetByRule: split the asset path at its last separator and take the preset of the first
    * rule that accepts it, else `defaultPreset` (Preset.GetDefaultForObject of the importer).
    */
  method GetTexturePresetByRule(settings: CISettings, completePath: string, defaultPreset: Option<Preset>)
    returns (r: Result<Option<Preset>>)
    ensures r == SelectPreset(settings.rules, completePath, defaultPreset)
  {
    r := settings.GetPresetByRule(completePath, defaultPreset);
  }
}
