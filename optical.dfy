/** Physical location of an Illumina read (markduplicates/optical.go): the
    lane, tile and well coordinates parsed from a read name, with the tile
    name taken apart into surface, swath, section and tile number. A
    log.Fatal is the None outcome. */
module OpticalLocation {
  import opened Wrappers
  import opened Ints
  import Decimals
  import PyStrings

  /** PhysicalLocation. */
  datatype PhysicalLocation = PhysicalLocation(
    lane: int, surface: int, swath: int, section: int, tileNumber: int,
    tileName: int, x: int, y: int)

  /** Go's integer remainder, which takes the sign of the dividend. */
  function GoRem(a: int, b: int): (r: int)
    requires b != 0
    ensures a >= 0 && b > 0 ==> r == a % b
  {
    a - GoDiv(a, b) * b
  }

  /** The 0-based field holding the tile name, for the three read-name
      layouts of 5, 7 and 8 colon-separated fields. */
  function TileField(fieldCount: nat): (idx: Option<nat>)
    ensures idx.Some? <==> fieldCount == 5 || fieldCount == 7 || fieldCount == 8
    ensures idx.Some? ==> idx.value >= 1 && idx.value + 2 < fieldCount
  {
    if fieldCount == 5 then Some(2)
    else if fieldCount == 7 || fieldCount == 8 then Some(4)
    else None
  }

  /** The location of a tile name: a 5-digit name is surface, swath, section
      and a two-digit tile number; a shorter one has no section digit. */
  function TileLocation(lane: int, tileName: int, x: int, y: int): PhysicalLocation
  {
    if tileName > 9999 then
      PhysicalLocation(lane, GoDiv(tileName, 10000), GoDiv(GoRem(tileName, 10000), 1000),
                       GoDiv(GoRem(tileName, 1000), 100), GoRem(tileName, 100), tileName, x, y)
    else
      PhysicalLocation(lane, GoDiv(tileName, 1000), GoDiv(GoRem(tileName, 1000), 100),
                       0, GoRem(tileName, 100), tileName, x, y)
  }

  /** ParseLocation: lane, tile name, x and y are the four fields starting
      one before the tile field; each must be a decimal integer, and a tile
      name over 99999 is rejected. */
  function ParseLocation(qname: string): (r: Option<PhysicalLocation>)
    ensures var fields := PyStrings.Split(qname, ":");
            var idx := TileField(|fields|);
            r.Some? <==> idx.Some?
                         && Decimals.Atoi(fields[idx.value - 1]).Some? && Decimals.Atoi(fields[idx.value]).Some?
                         && Decimals.Atoi(fields[idx.value + 1]).Some? && Decimals.Atoi(fields[idx.value + 2]).Some?
                         && Decimals.Atoi(fields[idx.value]).value <= 99999
    ensures r.Some? ==>
              var fields := PyStrings.Split(qname, ":");
              var idx := TileField(|fields|).value;
              Decimals.Atoi(fields[idx - 1]) == Some(r.value.lane) && Decimals.Atoi(fields[idx]) == Some(r.value.tileName)
              && Decimals.Atoi(fields[idx + 1]) == Some(r.value.x) && Decimals.Atoi(fields[idx + 2]) == Some(r.value.y)
  {
    var fields := PyStrings.Split(qname, ":");
    match TileField(|fields|)
    case None => None
    case Some(tileIdx) =>
      var lane, tileName := Decimals.Atoi(fields[tileIdx - 1]), Decimals.Atoi(fields[tileIdx]);
      var x, y := Decimals.Atoi(fields[tileIdx + 1]), Decimals.Atoi(fields[tileIdx + 2]);
      if lane.None? || tileName.None? || x.None? || y.None? then None
      else if tileName.value > 99999 then None
      else Some(TileLocation(lane.value, tileName.value, x.value, y.value))
  }

  /** A 5-digit tile name is its surface, swath, section and tile number
      written side by side. */
  lemma FiveDigitTile(lane: int, tileName: int, x: int, y: int)
    requires 9999 < tileName <= 99999
    ensures var l := TileLocation(lane, tileName, x, y);
            1 <= l.surface <= 9 && 0 <= l.swath <= 9 && 0 <= l.section <= 9 && 0 <= l.tileNumber <= 99
            && tileName == l.surface * 10000 + l.swath * 1000 + l.section * 100 + l.tileNumber
  {
    var l := TileLocation(lane, tileName, x, y);
    assert tileName % 10000 == (tileName % 1000) + 1000 * l.swath;
    assert tileName % 1000 == (tileName % 100) + 100 * l.section;
  }

  /** A tile name of at most 4 digits is its surface, swath and tile number
      written side by side, with no section. */
  lemma FourDigitTile(lane: int, tileName: int, x: int, y: int)
    requires 0 <= tileName <= 9999
    ensures var l := TileLocation(lane, tileName, x, y);
            0 <= l.surface <= 9 && 0 <= l.swath <= 9 && l.section == 0 && 0 <= l.tileNumber <= 99
            && tileName == l.surface * 1000 + l.swath * 100 + l.tileNumber
  {
    var l := TileLocation(lane, tileName, x, y);
    assert tileName % 1000 == (tileName % 100) + 100 * l.swath;
  }
}
