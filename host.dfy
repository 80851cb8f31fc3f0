/**
 * The host editor surface the commands operate on.  Only the state the
 * commands read or write is kept: the kind of editor, the live buffer, the
 * selection set, the read-only flag and the cursor shape.  Actions the commands delegate to
 * the host (new line, paste, backspace, native motions) are recorded in
 * `calls` in the order they are issued; their own effect is the host's.
 */
module Host {
  import opened Buffer

  datatype CursorShape = Bar | WideBar | Block | Underline | Hollow

  /** The kind of editor surface; only `Full` matters to the commands. */
  datatype EditorMode = SingleLine | AutoHeight | Full | Minimap

  datatype EditorEvent = Focused | FocusedIn | FocusedOut | Blurred | BufferEdited | SelectionsChanged

  datatype HostCall =
    | NewlineAbove
    | NewlineBelow
    | Paste
    | Backspace
    | NativeMoveToBeginningOfLine(stopAtSoftWraps: bool, stopAtIndent: bool)
    | NativeMoveToEndOfLine(stopAtSoftWraps: bool)

  class Editor {
    var kind: EditorMode
    var lines: seq<Line>
    var selections: seq<Selection>
    var readOnly: bool
    var cursorShape: CursorShape
    var calls: seq<HostCall>

    /** A buffer always has a line, and every selection starts before it ends. */
    ghost predicate Valid()
      reads this
    {
      |lines| > 0 && forall i :: 0 <= i < |selections| ==> selections[i].WellFormed()
    }
  }
}
