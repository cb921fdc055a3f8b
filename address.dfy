/** The addressing scheme of the document store: the external name a save
    returns, and how a name given to a load is routed either to the database
    table or to the legacy directory. */
module Address {

  /** Prefix of every external name, telling geodocs apart from other files. */
  const DocPrefix: string := "geodoc"

  /** Length of the hex key of a database row. */
  const HashLength: nat := 32

  /** The only name length that is routed to the database. The 4 is the length
      of a dotted three-letter extension such as ".wmc". */
  const DbNameLength: nat := 4 + HashLength + |DocPrefix|

  datatype Location = Database(hash: string) | LegacyFile(fileName: string)

  /** The name a save returns for a row key and the store's file extension. */
  function ExternalName(hash: string, extension: string): (name: string)
    ensures |name| == |DocPrefix| + |hash| + |extension|
    ensures name[..|DocPrefix|] == DocPrefix
  {
    DocPrefix + hash + extension
  }

  /** The backend a name addresses: a 42-character name is a database key at
      characters 6 to 37 (the prefix itself is not checked); any other name is a file of the legacy directory. */
  function Route(name: string): (loc: Location)
    ensures loc.Database? <==> |name| == 42
    ensures loc.Database? ==> |loc.hash| == HashLength && loc.hash == name[6..38]
    ensures loc.LegacyFile? ==> loc.fileName == name
  {
    if |name| == DbNameLength then
      Database(name[|DocPrefix|..|DocPrefix| + HashLength])
    else
      LegacyFile(name)
  }

  /** The round trip of save and load: with a 32-character key and a
      4-character extension, the name a save returns routes back to the
      database under that same key. */
  lemma RouteOfExternalName(hash: string, extension: string)
    requires |hash| == HashLength && |extension| == 4
    ensures Route(ExternalName(hash, extension)) == Database(hash)
  {
  }

  /** With an extension of any other length the name a save returns is taken
      for a legacy file name, so the database row it stands for is not found. */
  lemma ExternalNameWithOtherExtensionIsLegacy(hash: string, extension: string)
    requires |hash| == HashLength && |extension| != 4
    ensures Route(ExternalName(hash, extension)) == LegacyFile(ExternalName(hash, extension))
  {
  }

  /** The other direction of the round trip: a name routed to the database
      that starts with the prefix and ends with the extension is the external
      name of its own key. */
  lemma DatabaseNameIsExternalName(name: string, extension: string)
    requires Route(name).Database? && |extension| == 4
    requires name[..6] == DocPrefix && name[38..] == extension
    ensures name == ExternalName(Route(name).hash, extension)
  {
    assert name == name[..6] + name[6..38] + name[38..];
  }
}
