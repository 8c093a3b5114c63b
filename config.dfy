/** The constants of `config.py`: the platform table, the matcher weights
    and the default threshold. */
module Config {
  import opened Wrappers
  import opened Seqs
  import opened Text

  /** One `PLATFORM_CONFIG` entry: platform name, reference table file name
      and accepted file extensions. */
  datatype PlatformEntry = PlatformEntry(name: string, csv: string, extensions: seq<string>)

  /** `DEFAULT_THRESHOLD`. */
  const DefaultThreshold: int := 40

  /** The platforms, one constant each. */
  const GameBoyAdvance: PlatformEntry := PlatformEntry("Game Boy Advance", "Nintendo - Game Boy Advance.csv", [".gba", ".zip"])
  const GameBoyColor: PlatformEntry := PlatformEntry("Game Boy Color", "Nintendo - Game Boy Color.csv", [".gbc", ".zip"])
  const GameBoy: PlatformEntry := PlatformEntry("Game Boy", "Nintendo - Game Boy.csv", [".gb", ".zip"])
  const Nintendo3DS: PlatformEntry := PlatformEntry("Nintendo 3DS", "Nintendo - New Nintendo 3DS.csv", [".3ds", ".cia", ".zip"])
  const NintendoDS: PlatformEntry := PlatformEntry("Nintendo DS", "Nintendo - Nintendo DS.csv", [".nds", ".zip"])
  const Nintendo64: PlatformEntry := PlatformEntry("Nintendo 64", "Nintendo - Nintendo 64.csv", [".n64", ".z64", ".v64", ".zip"])
  const NES: PlatformEntry := PlatformEntry("NES", "Nintendo - Nintendo Entertainment System.csv", [".nes", ".zip"])
  const SuperNintendo: PlatformEntry := PlatformEntry("Super Nintendo", "Nintendo - Super Nintendo Entertainment System.csv", [".sfc", ".smc", ".zip"])
  const WiiU: PlatformEntry := PlatformEntry("Wii U", "Nintendo - Wii U.csv", [".wud", ".wux"])
  const Wii: PlatformEntry := PlatformEntry("Wii", "Nintendo - Wii.csv", [".wbfs", ".iso", ".wbf", ".rvz"])
  const PlayStationPortable: PlatformEntry := PlatformEntry("PlayStation Portable", "Sony - PlayStation Portable.csv", [".cso", ".iso", ".zip"])
  const PlayStation: PlatformEntry := PlatformEntry("PlayStation", "Sony - PlayStation.csv", [".bin", ".cue", ".img", ".mdf", ".pbp", ".toc", ".cbn", ".m3u"])
  const Dreamcast: PlatformEntry := PlatformEntry("Dreamcast", "Sega - Dreamcast.csv", [".cdi", ".gdi", ".chd"])
  const MegaDrive: PlatformEntry := PlatformEntry("Mega Drive", "Sega - Mega Drive - Genesis.csv", [".md", ".gen", ".smd", ".bin", ".zip"])

  /** `PLATFORM_CONFIG`, in dict order. */
  const PlatformConfig: seq<PlatformEntry> := [
    GameBoyAdvance, GameBoyColor, GameBoy, Nintendo3DS,
    NintendoDS, Nintendo64, NES, SuperNintendo,
    WiiU, Wii, PlayStationPortable, PlayStation,
    Dreamcast, MegaDrive
  ]

  /** `MATCH_WEIGHTS`: token set ratio, ratio, partial ratio, token sort ratio. */
  const TokenSetWeight: real := 0.35
  const RatioWeight: real := 0.25
  const PartialWeight: real := 0.25
  const TokenSortWeight: real := 0.15

  /** `LENGTH_RATIO_POWER`: the length ratio is raised to this power. */
  const LengthRatioPower: real := 0.5

  /** `SUBSTRING_PENALTY`. */
  const SubstringPenalty: real := 0.7

  function NamedIs(name: string): PlatformEntry -> bool {
    (e: PlatformEntry) => e.name == name
  }

  function Accepts(ext: string): PlatformEntry -> bool {
    (e: PlatformEntry) => ext in e.extensions
  }

  /** `PLATFORM_CONFIG.get(name)`. */
  function Lookup(name: string): (r: Option<PlatformEntry>)
    ensures r.Some? <==> exists i :: 0 <= i < |PlatformConfig| && PlatformConfig[i].name == name
    ensures r.Some? ==> r.value in PlatformConfig && r.value.name == name
  {
    match FirstIndex(PlatformConfig, NamedIs(name))
    case None => None
    case Some(i) => Some(PlatformConfig[i])
  }

  /** The scan `for name, config in PLATFORM_CONFIG.items(): if ext in
      config['extensions']: break`: the index of the first platform that
      accepts `ext`. */
  function FirstPlatformWith(ext: string): (r: Option<nat>)
    ensures r.Some? ==> r.value < |PlatformConfig| && ext in PlatformConfig[r.value].extensions
    ensures r.Some? ==> forall j :: 0 <= j < r.value ==> ext !in PlatformConfig[j].extensions
    ensures r.None? <==> forall j :: 0 <= j < |PlatformConfig| ==> ext !in PlatformConfig[j].extensions
  {
    FirstIndex(PlatformConfig, Accepts(ext))
  }

  /** What every entry of the table satisfies. */
  predicate WellFormedEntry(e: PlatformEntry) {
    && e.name != [] && e.csv != [] && e.extensions != []
    && forall k :: 0 <= k < |e.extensions| ==>
         |e.extensions[k]| >= 2 && e.extensions[k][0] == '.' && IsLowerCase(e.extensions[k])
  }

  /** Every platform has a name, a table file and a non-empty list of
      lower-case extensions that start with a dot, and no platform name is
      repeated (so the list is a faithful picture of the dict). */
  lemma PlatformConfigWellFormed()
    ensures forall i :: 0 <= i < |PlatformConfig| ==> WellFormedEntry(PlatformConfig[i])
    ensures forall i, j :: 0 <= i < j < |PlatformConfig| ==> PlatformConfig[i].name != PlatformConfig[j].name
  {
    EntriesWellFormed();
    NamesDistinct();
  }

  lemma EntriesWellFormed()
    ensures forall i :: 0 <= i < |PlatformConfig| ==> WellFormedEntry(PlatformConfig[i])
  {
    GameBoyAdvanceWellFormed();
    GameBoyColorWellFormed();
    GameBoyWellFormed();
    Nintendo3DSWellFormed();
    NintendoDSWellFormed();
    Nintendo64WellFormed();
    NESWellFormed();
    SuperNintendoWellFormed();
    WiiUWellFormed();
    WiiWellFormed();
    PlayStationPortableWellFormed();
    PlayStationWellFormed();
    DreamcastWellFormed();
    MegaDriveWellFormed();
  }

  // One entry at a time, so that each proof only unfolds one literal.
  lemma GameBoyAdvanceWellFormed() ensures WellFormedEntry(GameBoyAdvance) { }
  lemma GameBoyColorWellFormed() ensures WellFormedEntry(GameBoyColor) { }
  lemma GameBoyWellFormed() ensures WellFormedEntry(GameBoy) { }
  lemma Nintendo3DSWellFormed() ensures WellFormedEntry(Nintendo3DS) { }
  lemma NintendoDSWellFormed() ensures WellFormedEntry(NintendoDS) { }
  lemma Nintendo64WellFormed() ensures WellFormedEntry(Nintendo64) { }
  lemma NESWellFormed() ensures WellFormedEntry(NES) { }
  lemma SuperNintendoWellFormed() ensures WellFormedEntry(SuperNintendo) { }
  lemma WiiUWellFormed() ensures WellFormedEntry(WiiU) { }
  lemma WiiWellFormed() ensures WellFormedEntry(Wii) { }
  lemma PlayStationPortableWellFormed() ensures WellFormedEntry(PlayStationPortable) { }
  lemma PlayStationWellFormed() ensures WellFormedEntry(PlayStation) { }
  lemma DreamcastWellFormed() ensures WellFormedEntry(Dreamcast) { }
  lemma MegaDriveWellFormed() ensures WellFormedEntry(MegaDrive) { }

  lemma NamesDistinct()
    ensures forall i, j :: 0 <= i < j < |PlatformConfig| ==> PlatformConfig[i].name != PlatformConfig[j].name
  {
  }

  /** `.zip` is listed by ten platforms and resolves to the first,
      Game Boy Advance. */
  lemma ZipResolvesToGameBoyAdvance()
    ensures ".zip" in PlatformConfig[1].extensions
    ensures FirstPlatformWith(".zip") == Some(0) && PlatformConfig[0].name == "Game Boy Advance"
  {
    FirstIndexIsOnlyCandidate(PlatformConfig, Accepts(".zip"), 0);
  }

  /** `.iso` is listed by Wii and by PlayStation Portable and resolves to
      Wii, the earlier one. */
  lemma IsoResolvesToWii()
    ensures ".iso" in PlatformConfig[10].extensions
    ensures FirstPlatformWith(".iso") == Some(9) && PlatformConfig[9].name == "Wii"
  {
    assert ".iso" !in GameBoyAdvance.extensions && ".iso" !in GameBoyColor.extensions && ".iso" !in GameBoy.extensions;
    assert ".iso" !in Nintendo3DS.extensions && ".iso" !in NintendoDS.extensions && ".iso" !in Nintendo64.extensions;
    assert ".iso" !in NES.extensions && ".iso" !in SuperNintendo.extensions && ".iso" !in WiiU.extensions;
    FirstIndexIsOnlyCandidate(PlatformConfig, Accepts(".iso"), 9);
  }

  /** `.bin` is listed by PlayStation and by Mega Drive and resolves to
      PlayStation, the earlier one. */
  lemma BinResolvesToPlayStation()
    ensures ".bin" in PlatformConfig[13].extensions
    ensures FirstPlatformWith(".bin") == Some(11) && PlatformConfig[11].name == "PlayStation"
  {
    assert ".bin" !in GameBoyAdvance.extensions && ".bin" !in GameBoyColor.extensions && ".bin" !in GameBoy.extensions;
    assert ".bin" !in Nintendo3DS.extensions && ".bin" !in NintendoDS.extensions && ".bin" !in Nintendo64.extensions;
    assert ".bin" !in NES.extensions && ".bin" !in SuperNintendo.extensions && ".bin" !in WiiU.extensions;
    assert ".bin" !in Wii.extensions && ".bin" !in PlayStationPortable.extensions;
    FirstIndexIsOnlyCandidate(PlatformConfig, Accepts(".bin"), 11);
  }

  /** The four weights sum to one, and the length exponent and the substring
      penalty can only lower a score (given a ratio in [0, 1]). */
  lemma WeightsAndDamping()
    ensures TokenSetWeight + RatioWeight + PartialWeight + TokenSortWeight == 1.0
    ensures 0.0 < LengthRatioPower <= 1.0
    ensures 0.0 < SubstringPenalty < 1.0
    ensures 0 <= DefaultThreshold <= 100
  {
  }
}
