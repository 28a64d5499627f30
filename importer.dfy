/**
  * CustomImporter (an AssetPostprocessor): before a texture is imported, either records
  * the preset chosen by the rules in the importer's userData (first import), or reads the
  * recorded preset back and flags the asset as differing from it (later imports).
  */
module Importer {
  import opened Wrappers
  import opened Strings
  import opened Host
  import opened Markers
  import opened Settings
  import TextureSettings

  /** The scan of OnPreprocessTexture over the lines of userData, stopping at the first prefix line. */
  method FindSettingsUsed(datas: seq<string>) returns (settingsUsed: string)
    ensures settingsUsed == SettingsUsed(datas)
  {
    settingsUsed := "";
    var i := 0;
    while i < |datas| - 1
      invariant 0 <= i <= |datas|
      invariant forall j :: 0 <= j < i ==> datas[j] != Prefix
    {
      if datas[i] == Prefix {
        settingsUsed := datas[i + 1];
        break;
      }
      i := i + 1;
    }
  }

  class CustomImporter {
    var settingsTextures: CISettings?  // the texture settings SetLinks loaded, possibly none
    const assetPath: string
    const assetImporter: AssetImporter

    constructor (assetPath: string, assetImporter: AssetImporter, settingsTextures: CISettings?)
      ensures this.assetPath == assetPath && this.assetImporter == assetImporter
      ensures this.settingsTextures == settingsTextures
    {
      this.assetPath := assetPath;
      this.assetImporter := assetImporter;
      this.settingsTextures := settingsTextures;
    }

    /**
      * OnPreprocessTexture. `equalsPreset` stands for `new Preset(importer).Equals(preset)`;
      * `defaultPreset` for Preset.GetDefaultForObject(importer). Returns the exception the
      * callback ends with, if any.
      */
    method OnPreprocessTexture(equalsPreset: bool, defaultPreset: Option<Preset>)
      returns (thrown: Option<Error>, ghost appliedData: string)
      modifies assetImporter`userData, assetImporter`applied
      ensures settingsTextures == null ==>
                thrown == None && assetImporter.userData == old(assetImporter.userData)
                && assetImporter.applied == old(assetImporter.applied)
      ensures settingsTextures != null && Contains(old(assetImporter.userData), Prefix) ==>
                var found := settingsTextures.GetPresetByName(SettingsUsed(SplitLines(old(assetImporter.userData))));
                assetImporter.applied == old(assetImporter.applied)
                && (found.Failure? ==> thrown == Some(found.error) && assetImporter.userData == old(assetImporter.userData))
                && (found == Ok(None) ==> thrown == None && assetImporter.userData == old(assetImporter.userData))
                && (found.Ok? && found.value.Some? ==>
                      thrown == None && assetImporter.userData == MarkDiffering(old(assetImporter.userData)))
      ensures settingsTextures != null && !Contains(old(assetImporter.userData), Prefix) ==>
                var chosen := SelectPreset(settingsTextures.rules, assetPath, defaultPreset);
                (chosen.Failure? ==>
                   thrown == Some(chosen.error) && assetImporter.userData == old(assetImporter.userData)
                   && assetImporter.applied == old(assetImporter.applied))
                && (chosen == Ok(None) ==>
                      thrown == None && assetImporter.userData == old(assetImporter.userData)
                      && assetImporter.applied == old(assetImporter.applied))
                && (chosen.Ok? && chosen.value.Some? ==>
                      thrown == None && assetImporter.applied == chosen.value
                      && assetImporter.userData == MarkFirstImport(appliedData, chosen.value.value.name))
    {
      appliedData := assetImporter.userData;
      if settingsTextures == null {
        return None, appliedData;
      }
      var usesPreset := Contains(assetImporter.userData, Prefix);
      if usesPreset {
        thrown := PreprocessLinkedAsset(settingsTextures, equalsPreset);
      } else {
        thrown, appliedData := PreprocessNewAsset(settingsTextures, defaultPreset);
      }
    }

    /** The branch of OnPreprocessTexture for an asset already marked with a preset name. */
    method PreprocessLinkedAsset(settings: CISettings, equalsPreset: bool) returns (thrown: Option<Error>)
      modifies assetImporter`userData
      ensures var found := settings.GetPresetByName(SettingsUsed(SplitLines(old(assetImporter.userData))));
              (found.Failure? ==> thrown == Some(found.error) && assetImporter.userData == old(assetImporter.userData))
              && (found == Ok(None) ==> thrown == None && assetImporter.userData == old(assetImporter.userData))
              && (found.Ok? && found.value.Some? ==>
                    thrown == None && assetImporter.userData == MarkDiffering(old(assetImporter.userData)))
    {
      var userData := assetImporter.userData;
      var isDiffering := Contains(userData, Differing);
      var datas := SplitLines(userData);
      var settingsUsed := FindSettingsUsed(datas);
      var found := settings.GetPresetByName(settingsUsed);
      if found.Failure? {
        return Some(found.error);
      }
      if found.value.Some? {
        if equalsPreset && isDiffering {
          // "Removing customized flag": String.Replace returns a new string, and it is dropped.
          var discarded := ReplaceAll(userData, DifferingMarker, "");
        } else if !isDiffering {
          assetImporter.userData := userData + DifferingMarker;
        }
      }
      return None;
    }

    /**
      * The branch of OnPreprocessTexture for an asset without a preset mark: the first import.
      * `appliedData` is the userData as ApplyTo left it, the text the marker is appended to.
      */
    method PreprocessNewAsset(settings: CISettings, defaultPreset: Option<Preset>)
      returns (thrown: Option<Error>, ghost appliedData: string)
      modifies assetImporter`userData, assetImporter`applied
      ensures var chosen := SelectPreset(settings.rules, assetPath, defaultPreset);
              (chosen.Failure? ==>
                 thrown == Some(chosen.error) && assetImporter.userData == old(assetImporter.userData)
                 && assetImporter.applied == old(assetImporter.applied))
              && (chosen == Ok(None) ==>
                    thrown == None && assetImporter.userData == old(assetImporter.userData)
                    && assetImporter.applied == old(assetImporter.applied))
              && (chosen.Ok? && chosen.value.Some? ==>
                    thrown == None && assetImporter.applied == chosen.value
                    && assetImporter.userData == MarkFirstImport(appliedData, chosen.value.value.name))
    {
      appliedData := assetImporter.userData;
      var preset := TextureSettings.GetTexturePresetByRule(settings, assetPath, defaultPreset);
      if preset.Failure? {
        return Some(preset.error), appliedData;
      }
      if preset.value.Some? {
        assetImporter.ApplyPreset(preset.value.value);
        appliedData := assetImporter.userData;
        assetImporter.userData := assetImporter.userData + UsedMarker(preset.value.value.name);
      }
      return None, appliedData;
    }
  }

  /**
    * The recorded name leads back to the rule: after a first import with the preset of rule
    * `i`, a later import of the same asset finds that preset by name, provided no earlier rule
    * has a null preset or a preset of the same name.
    */
  lemma SecondImportFindsPreset(s: CISettings, userData: string, i: nat)
    requires i < |s.rules| && s.rules[i].preset.Some?
    requires forall j :: 0 <= j < i ==>
               s.rules[j].preset.Some? && s.rules[j].preset.value.name != s.rules[i].preset.value.name
    requires !Contains(userData, Prefix) && NoBreak(s.rules[i].preset.value.name)
    ensures var p := s.rules[i].preset.value;
            s.GetPresetByName(SettingsUsed(SplitLines(MarkFirstImport(userData, p.name)))) == Ok(Some(p))
  {
    var p := s.rules[i].preset.value;
    ParseAfterFirstImport(userData, p.name);
    assert NameStop(s.rules[i], p.name);
  }
}
