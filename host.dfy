/**
  * The Unity objects the core touches, kept opaque: a preset is a value identified by
  * its handle (object identity) and carrying the name of its asset file; an importer
  * holds the free-text `userData` field, the preset last applied to it and a count of
  * the re-imports requested from it.
  */
module Host {
  import opened Wrappers

  datatype Preset = Preset(handle: nat, name: string)

  class AssetImporter {
    var userData: string
    var applied: Option<Preset>
    var reimports: nat

    constructor (userData: string)
      ensures this.userData == userData && applied == None && reimports == 0
    {
      this.userData := userData;
      applied := None;
      reimports := 0;
    }

    /**
      * Preset.ApplyTo(importer): the importer takes the preset's settings. ApplyTo may also
      * write userData, and nothing is promised about the userData it leaves.
      */
    method ApplyPreset(preset: Preset)
      modifies this`applied, this`userData
      ensures applied == Some(preset)
    {
      applied := Some(preset);
    }

    /** AssetImporter.SaveAndReimport(). */
    method SaveAndReimport()
      modifies this`reimports
      ensures reimports == old(reimports) + 1
    {
      reimports := reimports + 1;
    }
  }
}
