/**
 * The mode controller: each editor carries a mode name that the key
 * bindings read, and the editor's cursor shape follows the mode, a bar in
 * the "default" mode and a wide bar in any other.
 */
module ModeController {
  import opened Host

  /** The mode a newly opened editor starts in: full editors act, others type. */
  function InitialMode(kind: EditorMode): (mode: string)
    ensures mode == "action" <==> kind.Full?
    ensures mode == "default" <==> !kind.Full?
  {
    match kind
    case Full => "action"
    case _ => "default"
  }

  /** The cursor shape that shows a mode. */
  function ShapeFor(mode: string): (shape: CursorShape)
    ensures shape == Bar <==> mode == "default"
    ensures shape == Bar || shape == WideBar
  {
    if mode == "default" then Bar else WideBar
  }

  /** A full editor opens with the wide bar, every other kind with the bar. */
  lemma InitialShape(kind: EditorMode)
    ensures ShapeFor(InitialMode(kind)) == (if kind.Full? then WideBar else Bar)
  {
  }

  /** `sync`: the editor's cursor shape is set from the mode and nothing else changes. */
  method Sync(mode: string, e: Editor)
    modifies e
    ensures e.cursorShape == ShapeFor(mode)
    ensures e.kind == old(e.kind) && e.lines == old(e.lines) && e.selections == old(e.selections)
    ensures e.readOnly == old(e.readOnly) && e.calls == old(e.calls)
  {
    if mode == "default" {
      e.cursorShape := Bar;
    } else {
      e.cursorShape := WideBar;
    }
  }

  /** The controller attached to one editor. */
  class Dance {
    var mode: string
    const editor: Editor

    /** The editor's cursor shows the current mode. */
    ghost predicate Synced()
      reads this, editor
    {
      editor.cursorShape == ShapeFor(mode)
    }

    /** Attaching to a new editor: the initial mode from its kind, then a sync. */
    constructor (editor: Editor)
      modifies editor
      ensures this.editor == editor && mode == InitialMode(editor.kind)
      ensures Synced()
      ensures editor.kind == old(editor.kind) && editor.lines == old(editor.lines)
      ensures editor.selections == old(editor.selections) && editor.readOnly == old(editor.readOnly)
      ensures editor.calls == old(editor.calls)
    {
      this.editor := editor;
      mode := InitialMode(editor.kind);
      new;
      Sync(mode, editor);
    }

    /** `switch_mode`: the new mode is stored and shown. */
    method SwitchMode(newMode: string)
      modifies this, editor
      ensures mode == newMode
      ensures Synced()
      ensures editor.kind == old(editor.kind) && editor.lines == old(editor.lines)
      ensures editor.selections == old(editor.selections) && editor.readOnly == old(editor.readOnly)
      ensures editor.calls == old(editor.calls)
    {
      mode := newMode;
      Sync(mode, editor);
    }

    /**
     * `handle_editor_event`: gaining focus shows the mode again, so a cursor
     * shape changed elsewhere is put right; every other event is ignored.
     */
    method HandleEditorEvent(event: EditorEvent)
      modifies editor
      ensures event.Focused? || event.FocusedIn? ==> Synced()
      ensures !(event.Focused? || event.FocusedIn?) ==> unchanged(editor)
      ensures old(Synced()) ==> Synced()
      ensures editor.kind == old(editor.kind) && editor.lines == old(editor.lines)
      ensures editor.selections == old(editor.selections) && editor.readOnly == old(editor.readOnly)
      ensures editor.calls == old(editor.calls)
    {
      match event
      case Focused => Sync(mode, editor);
      case FocusedIn => Sync(mode, editor);
      case _ =>
    }
  }

  /**
   * The hook run for every new editor: without a window nothing is attached;
   * with one the controller starts in the initial mode, already shown.
   */
  method Attach(editor: Editor, hasWindow: bool) returns (dance: Dance?)
    modifies editor
    ensures !hasWindow ==> dance == null && unchanged(editor)
    ensures hasWindow ==>
      && dance != null && fresh(dance) && dance.editor == editor
      && dance.mode == InitialMode(editor.kind) && dance.Synced()
    ensures editor.kind == old(editor.kind) && editor.lines == old(editor.lines)
    ensures editor.selections == old(editor.selections) && editor.readOnly == old(editor.readOnly)
    ensures editor.calls == old(editor.calls)
  {
    if !hasWindow {
      return null;
    }
    dance := new Dance(editor);
  }
}
