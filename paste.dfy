/**
 * `paste_above` and `paste_below`: a clipboard whose every entry is text
 * ending in a line break is pasted on a new line above (or below) the
 * cursor, and the line break the paste brings along is taken back; any
 * other clipboard is pasted in place.  The clipboard is read once per
 * command and is a parameter here.
 */
module Clipboard {
  import opened Host

  datatype Option<T> = None | Some(value: T)

  /** One entry of a clipboard item; image data and paths are not inspected. */
  datatype ClipboardEntry = String(text: string) | Image | ExternalPaths(paths: seq<string>)

  datatype ClipboardItem = ClipboardItem(entries: seq<ClipboardEntry>)

  /** An entry is text whose last character is a line break. */
  predicate IsLineText(entry: ClipboardEntry) {
    entry.String? && |entry.text| > 0 && entry.text[|entry.text| - 1] == '\n'
  }

  /** Every entry, front to back, is text ending in a line break. */
  function AllEndInNewline(entries: seq<ClipboardEntry>): (b: bool)
    ensures b <==> forall i :: 0 <= i < |entries| ==> IsLineText(entries[i])
  {
    if entries == [] then true
    else
      match entries[0]
      case Image => false
      case ExternalPaths(_) => false
      case String(text) => |text| > 0 && text[|text| - 1] == '\n' && AllEndInNewline(entries[1..])
  }

  /**
   * The clipboard holds at least one entry and each of them is text ending
   * in a line break; an empty clipboard does not.
   */
  function ClipboardEndsInNewline(clipboard: Option<ClipboardItem>): (b: bool)
    ensures b <==>
      && clipboard.Some? && |clipboard.value.entries| > 0
      && forall i :: 0 <= i < |clipboard.value.entries| ==> IsLineText(clipboard.value.entries[i])
  {
    match clipboard
    case None => false
    case Some(item) => |item.entries| > 0 && AllEndInNewline(item.entries)
  }

  /** One image or path entry anywhere makes the whole clipboard paste in place. */
  lemma NonTextEntryPastesInPlace(item: ClipboardItem, i: nat)
    requires i < |item.entries| && !item.entries[i].String?
    ensures !ClipboardEndsInNewline(Some(item))
  {
  }

  /** Where the new line for a line-wise paste goes. */
  datatype Placement = Above | Below

  /**
   * The host actions a paste issues: the paste itself, bracketed by a new
   * line on the chosen side and a backspace when the clipboard holds lines.
   */
  function PasteCalls(placement: Placement, endsInNewline: bool): (calls: seq<HostCall>)
    ensures Paste in calls
    ensures !endsInNewline ==> calls == [Paste]
    ensures endsInNewline ==> |calls| == 3 && calls[1] == Paste && calls[2] == Backspace
    ensures endsInNewline ==> calls[0] == (if placement.Above? then NewlineAbove else NewlineBelow)
  {
    (if endsInNewline then [if placement.Above? then NewlineAbove else NewlineBelow] else [])
    + [Paste]
    + (if endsInNewline then [Backspace] else [])
  }

  /** A new line is opened exactly when its line break is taken back afterwards. */
  lemma NewlineIffBackspace(placement: Placement, endsInNewline: bool)
    ensures var calls := PasteCalls(placement, endsInNewline);
      && (NewlineAbove in calls || NewlineBelow in calls) == (Backspace in calls)
      && (Backspace in calls) == endsInNewline
      && (NewlineAbove in calls ==> placement.Above?)
      && (NewlineBelow in calls ==> placement.Below?)
  {
  }

  method PasteAbove(e: Editor, clipboard: Option<ClipboardItem>)
    modifies e
    ensures e.calls == old(e.calls) + PasteCalls(Above, ClipboardEndsInNewline(clipboard))
    ensures e.kind == old(e.kind) && e.lines == old(e.lines) && e.selections == old(e.selections)
    ensures e.readOnly == old(e.readOnly) && e.cursorShape == old(e.cursorShape)
  {
    var endsInNewline := ClipboardEndsInNewline(clipboard);
    if endsInNewline {
      e.calls := e.calls + [NewlineAbove];
    }
    e.calls := e.calls + [Paste];
    if endsInNewline {
      e.calls := e.calls + [Backspace];
    }
  }

  method PasteBelow(e: Editor, clipboard: Option<ClipboardItem>)
    modifies e
    ensures e.calls == old(e.calls) + PasteCalls(Below, ClipboardEndsInNewline(clipboard))
    ensures e.kind == old(e.kind) && e.lines == old(e.lines) && e.selections == old(e.selections)
    ensures e.readOnly == old(e.readOnly) && e.cursorShape == old(e.cursorShape)
  {
    var endsInNewline := ClipboardEndsInNewline(clipboard);
    if endsInNewline {
      e.calls := e.calls + [NewlineBelow];
    }
    e.calls := e.calls + [Paste];
    if endsInNewline {
      e.calls := e.calls + [Backspace];
    }
  }
}
