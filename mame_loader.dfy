/**
 * The external MAME metadata collaborator, reduced to the lookups the
 * KonamiGX scanner makes: rom groups by type, and the hex attributes of a
 * group that parse.
 */
module MameLoader {
  import opened Wrappers
  import opened Helper
  import opened RawFile

  /** A MAMERomGroupEntry: its loaded file (if any) and its attributes that parse as hex. */
  datatype RomGroup = RomGroup(file: Option<seq<byte>>, hexAttributes: map<string, u32>)

  /** A MAMEGameEntry: its rom groups, keyed by type. */
  datatype GameEntry = GameEntry(romGroups: map<string, RomGroup>)

  function GetRomGroupOfType(entry: GameEntry, groupType: string): (r: Option<RomGroup>)
  {
    if groupType in entry.romGroups then Some(entry.romGroups[groupType]) else None
  }

  function GetHexAttribute(group: RomGroup, name: string): (r: Option<u32>)
  {
    if name in group.hexAttributes then Some(group.hexAttributes[name]) else None
  }
}
