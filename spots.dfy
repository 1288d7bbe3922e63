/**
 * The cell model of maze.go: the four kinds of spot, their one-character
 * glyphs, the mapping from an input character to a spot, and the traversal
 * state (distance and predecessor) that every spot carries.
 */
module Spots {
  import opened Wrappers

  /** The four implementations of Go's `Spot` interface, as one closed enumeration. */
  datatype Kind = Wall | Space | Start | Exit

  /** A parsed spot: its kind and the location it was given by `SetLocation`. */
  datatype Cell = Cell(kind: Kind, x: int, y: int)

  /** A grid position (column x, row y); predecessors are kept as positions, not pointers. */
  datatype Pos = Pos(x: int, y: int)

  /**
   * The mutable part of a spot: `Distance` (-1 means unvisited) and `Path`,
   * the spot the search came from (Go's nil is `None`).
   */
  datatype Visit = Visit(distance: int, path: Option<Pos>)

  /** The `String` method of Wall, Space, Start and Exit, as a single character. */
  function Glyph(k: Kind): char
  {
    match k
    case Wall => 'X'
    case Space => ' '
    case Start => 'S'
    case Exit => 'E'
  }

  /** The characters the input format accepts. */
  predicate IsSpotChar(c: char)
  {
    c == 'X' || c == 'E' || c == ' '
  }

  /**
   * `NewSpot`: the kind named by an input character; `None` stands for the
   * fatal "Unknow Spot type" failure. Parsing never yields a Start spot, and
   * the spot's glyph gives back the character it was parsed from.
   */
  function NewSpot(c: char): (r: Option<Kind>)
    ensures r.Some? <==> IsSpotChar(c)
    ensures r.Some? ==> r.value != Start && Glyph(r.value) == c
  {
    match c
    case 'X' => Some(Wall)
    case 'E' => Some(Exit)
    case ' ' => Some(Space)
    case _ => None
  }

  /** Rendering a parseable kind and parsing the glyph back gives the same kind. */
  lemma GlyphRoundTrip(k: Kind)
    requires k != Start
    ensures NewSpot(Glyph(k)) == Some(k)
  {
  }
}
