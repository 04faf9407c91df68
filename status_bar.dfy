/** How each zone is drawn: a tile linking to the zone, with a coloured
    status bar, or a loading placeholder while there is nothing to show. */
module StatusBar {
  import opened Zones

  /** The three colours a status bar can take. */
  datatype Colour = Green | Amber | Red

  /** The CSS colour value of each bar colour. */
  function Hex(c: Colour): string {
    match c
    case Green => "#5dde59"
    case Amber => "#deca59"
    case Red => "#DE5959"
  }

  /** The bar colour of a status: green exactly for "active", amber exactly
      for "invalid", red for every other status. */
  function StatusColour(status: string): (c: Colour)
    ensures c == Green <==> status == "active"
    ensures c == Amber <==> status == "invalid"
    ensures c == Red <==> status != "active" && status != "invalid"
  {
    if status == "active" then Green
    else if status == "invalid" then Amber
    else Red
  }

  /** The three colours are told apart by their CSS values. */
  lemma HexDistinguishesColours(c1: Colour, c2: Colour)
    ensures Hex(c1) == Hex(c2) <==> c1 == c2
  {
  }

  /** The CSS background of a status bar, as the styled component computes
      it from the zone's status. */
  function BarColour(status: string): (hex: string)
    ensures hex == "#5dde59" <==> status == "active"
    ensures hex == "#deca59" <==> status == "invalid"
    ensures hex == "#DE5959" <==> status != "active" && status != "invalid"
  {
    HexDistinguishesColours(StatusColour(status), Green);
    HexDistinguishesColours(StatusColour(status), Amber);
    HexDistinguishesColours(StatusColour(status), Red);
    Hex(StatusColour(status))
  }

  /** One clickable tile: its list key, the link it points to, the
      text it shows and the colour of its bar. */
  datatype Tile = Tile(key: string, href: string, text: string, bar: Colour)

  /** What the widget shows below its header. */
  datatype Screen = Loading | Tiles(tiles: seq<Tile>)

  /** The tile for one zone. */
  function TileFor(z: Zone): Tile {
    Tile(z.name, "https://" + z.name, z.name, StatusColour(z.status))
  }

  /** The host a link points to: the link without its "https://" scheme. */
  function LinkHost(href: string): Option<string> {
    if |href| >= 8 && href[..8] == "https://" then Some(href[8..]) else None
  }

  /** A tile links to its own zone's name over https. */
  lemma TileLinksToZone(z: Zone)
    ensures LinkHost(TileFor(z).href) == Some(z.name)
    ensures TileFor(z).key == TileFor(z).text == z.name
    ensures TileFor(z).bar == StatusColour(z.status)
  {
    assert ("https://" + z.name)[..8] == "https://";
    assert ("https://" + z.name)[8..] == z.name;
  }

  /** The loading placeholder while the list is empty, otherwise one tile
      per zone in list order. */
  function Render(domains: seq<Zone>): (s: Screen)
    ensures s.Loading? <==> |domains| == 0
    ensures s.Tiles? ==> |s.tiles| == |domains|
    ensures s.Tiles? ==> forall k :: 0 <= k < |domains| ==> s.tiles[k] == TileFor(domains[k])
  {
    if |domains| == 0 then Loading
    else Tiles(seq(|domains|, k requires 0 <= k < |domains| => TileFor(domains[k])))
  }
}
