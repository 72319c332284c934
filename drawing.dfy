/**
 * Drawings are opaque to the game engine: a nested value of colours, lines
 * and points, stored in a turn's `drawing` column as JSON. The column is
 * modelled by what it holds: the empty string a new or label turn gets, the
 * JSON of a (possibly nil) drawing, or text that does not parse.
 */
module Drawings {
  import opened Wrappers

  datatype Color = Color(alpha: real, red: real, green: real, blue: real)
  datatype Point = Point(x: real, y: real)
  datatype Line = Line(color: Option<Color>, size: real, points: seq<Point>)
  datatype Drawing = Drawing(backgroundColor: Option<Color>, lines: seq<Line>)

  datatype DrawingColumn =
    | Blank                          // ''
    | Json(drawing: Option<Drawing>) // json.Marshal of a *Drawing; nil is "null"
    | Malformed(text: string)        // anything json.Unmarshal rejects

  /** json.Marshal of a drawing; it never fails here. */
  function Marshal(d: Option<Drawing>): (c: DrawingColumn)
    ensures c != Blank && !c.Malformed?
  {
    Json(d)
  }

  /** json.Unmarshal into a *Drawing: None when the column does not parse. */
  function Unmarshal(c: DrawingColumn): (r: Option<Option<Drawing>>)
    ensures r.None? <==> c == Blank || c.Malformed?
  {
    match c
    case Json(d) => Some(d)
    case _ => None
  }

  /** A stored drawing reads back as exactly the drawing that was written. */
  lemma UnmarshalMarshal(d: Option<Drawing>)
    ensures Unmarshal(Marshal(d)) == Some(d)
  {
  }
}
