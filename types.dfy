/**
 * The shared data model of the note-taking application (types.ts).
 * Coordinates, widths and heights are JavaScript numbers in the source; they
 * are modelled as exact `real`s.
 */
module Types {

  datatype Option<+T> = None | Some(value: T)

  /** A sampled pointer position in canvas coordinates. */
  datatype Point = Point(x: real, y: real, pressure: real)

  datatype Tool = Pen | Lasso

  /** A committed polyline. `selected` is optional in the source: an absent
      flag reads as "not selected", exactly like `false`. */
  datatype Stroke = Stroke(id: string, points: seq<Point>, color: string, width: real, selected: Option<bool>)

  datatype Tab = Tab(id: string, name: string, strokes: seq<Stroke>, height: real)

  datatype NoteFile = NoteFile(id: string, name: string, tabs: seq<Tab>, activeTabId: string,
                               createdAt: string, updatedAt: string)

  /** All notes, keyed by note id. */
  datatype FileSystem = FileSystem(notes: map<string, NoteFile>)

  /** The truthiness test `stroke.selected` of the source. */
  predicate IsSelected(s: Stroke) {
    s.selected == Some(true)
  }

  /** The stroke with its selection flag set to `b` and everything else kept. */
  function WithSelected(s: Stroke, b: bool): (r: Stroke)
    ensures r.id == s.id && r.points == s.points && r.color == s.color && r.width == s.width
    ensures r.selected == Some(b) && (IsSelected(r) <==> b)
  {
    s.(selected := Some(b))
  }

  /** `strokes.map(s => ({...s, selected: false}))` */
  function Deselect(strokes: seq<Stroke>): (r: seq<Stroke>)
    ensures |r| == |strokes|
    ensures forall i :: 0 <= i < |strokes| ==> r[i] == WithSelected(strokes[i], false)
  {
    seq(|strokes|, i requires 0 <= i < |strokes| => WithSelected(strokes[i], false))
  }
}
