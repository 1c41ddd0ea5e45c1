/** The canvas editing session of app.js: the global drag state and undo/redo
    stacks (app.js:3-6) together with the canvas they act on, and the event
    handlers that change them. Every handler that adds, removes, duplicates
    or restyles an element first records a snapshot with SaveCanvasState;
    selecting changes only the selection flags and records none. Each returns
    the notification it shows, if any. */
module Editor {
  import opened Wrappers
  import opened UndoHistory
  import opened Document
  import JsString

  /** What the AI content output shows before anything is generated
      (app.js:626). */
  const OutputPlaceholder: string := "Generated content will appear here..."

  /** insertAIContentToEditor's guard (app.js:626): nothing is inserted when
      the content is empty or trims to the output's placeholder text, that
      is, when it is the placeholder text with only whitespace around it. */
  predicate NothingToInsert(content: string)
    ensures NothingToInsert(content) ==>
      content == [] || exists i :: JsString.CutsTo(content, OutputPlaceholder, i)
  {
    content == "" || JsString.Trim(content) == OutputPlaceholder
  }

  /** The converse: the placeholder text with any whitespace around it is
      refused. */
  lemma PaddedPlaceholderIsRefused(content: string, i: nat)
    requires JsString.CutsTo(content, OutputPlaceholder, i)
    ensures NothingToInsert(content)
  {
    assert OutputPlaceholder[0] == 'G';
    assert OutputPlaceholder[|OutputPlaceholder| - 1] == '.';
    JsString.TrimOfCut(content, OutputPlaceholder, i);
  }

  /** The guard checks emptiness before trimming, so content made only of
      whitespace passes it and is inserted. */
  lemma BlankContentPassesGuard(content: string)
    requires content != []
    requires forall k :: 0 <= k < |content| ==> JsString.IsTrimmable(content[k])
    ensures !NothingToInsert(content)
  {
    var r := JsString.Trim(content);
    var i: nat :| JsString.CutsTo(content, r, i);
    assert r == [];
  }

  class Session {
    /** The live canvas (`#website-canvas`'s children). */
    var canvas: Canvas
    /** Snapshots to undo to, newest last. */
    var undoStack: seq<Canvas>
    /** Snapshots to redo to, newest last. */
    var redoStack: seq<Canvas>
    /** `draggedElement`: the `data-element` type of the palette item being
        dragged. */
    var dragged: Option<string>
    /** The supply of fresh element ids, standing for `'element-' + Date.now()`:
        every id handed out so far is below it. */
    var nextId: nat

    ghost function History(): Timeline<Canvas>
      reads this
    {
      Timeline(undoStack, canvas, redoStack)
    }

    /** The live canvas and every snapshot are well formed, and the two stacks
        together hold at most MaxUndo snapshots. */
    ghost predicate Valid()
      reads this
    {
      && Bounded(History())
      && WellFormed(canvas, nextId)
      && AllWellFormed(undoStack, nextId)
      && AllWellFormed(redoStack, nextId)
    }

    /** A session over a canvas with no elements, which may still show its
        placeholder, and empty history. */
    constructor (showsPlaceholder: bool)
      ensures Valid()
      ensures canvas == Canvas(showsPlaceholder, []) && undoStack == [] && redoStack == []
      ensures dragged == None && nextId == 0
    {
      canvas := Canvas(showsPlaceholder, []);
      undoStack := [];
      redoStack := [];
      dragged := None;
      nextId := 0;
    }

    /** saveCanvasState (app.js:345-363). */
    method SaveCanvasState()
      requires Valid()
      modifies this
      ensures Valid()
      ensures History() == Save(old(History()))
      ensures dragged == old(dragged) && nextId == old(nextId)
    {
      undoStack := undoStack + [canvas];
      if |undoStack| > MaxUndo {
        undoStack := undoStack[1..];
      }
      redoStack := [];
    }

    /** performUndo (app.js:365-386). */
    method PerformUndo() returns (message: string)
      requires Valid()
      modifies this
      ensures Valid()
      ensures History() == Undo(old(History()))
      ensures message == if old(undoStack) == [] then "Nothing to undo" else "Undo performed"
      ensures dragged == old(dragged) && nextId == old(nextId)
    {
      StepsKeepBounded(History(), canvas);
      if |undoStack| == 0 {
        return "Nothing to undo";
      }
      redoStack := redoStack + [canvas];
      canvas := undoStack[|undoStack| - 1];
      undoStack := undoStack[..|undoStack| - 1];
      message := "Undo performed";
    }

    /** performRedo (app.js:388-409); its push onto the undo stack drops no
        entry. */
    method PerformRedo() returns (message: string)
      requires Valid()
      modifies this
      ensures Valid()
      ensures History() == Redo(old(History()))
      ensures message == if old(redoStack) == [] then "Nothing to redo" else "Redo performed"
      ensures dragged == old(dragged) && nextId == old(nextId)
    {
      StepsKeepBounded(History(), canvas);
      if |redoStack| == 0 {
        return "Nothing to redo";
      }
      undoStack := undoStack + [canvas];
      canvas := redoStack[|redoStack| - 1];
      redoStack := redoStack[..|redoStack| - 1];
      message := "Redo performed";
    }

    /** Replaces the live canvas after a snapshot, keeping Valid. */
    method Commit(c: Canvas, bound: nat)
      requires Bounded(History()) && AllWellFormed(undoStack, nextId) && AllWellFormed(redoStack, nextId)
      requires nextId <= bound && WellFormed(c, bound)
      modifies this
      ensures Valid()
      ensures canvas == c && nextId == bound
      ensures undoStack == old(undoStack) && redoStack == old(redoStack) && dragged == old(dragged)
    {
      WellFormedGrows(undoStack, nextId, bound);
      WellFormedGrows(redoStack, nextId, bound);
      canvas := c;
      nextId := bound;
    }

    /** The palette's dragstart handler (app.js:109-112) stores the dragged
        item's type; dragend (app.js:114-116) leaves it in place. */
    method DragStart(kind: Option<string>)
      requires Valid()
      modifies this
      ensures Valid()
      ensures dragged == kind
      ensures canvas == old(canvas) && undoStack == old(undoStack) && redoStack == old(redoStack)
      ensures nextId == old(nextId)
    {
      dragged := kind;
    }

    /** The canvas drop handler (app.js:129-137): with a drag in progress it
        creates the dragged type at the drop point and ends the drag;
        otherwise nothing happens. A drag is in progress when dragstart stored
        a non-empty type: `null` and `""` are both false in the handler's
        test (app.js:133). */
    method Drop(x: int, y: int) returns (message: Option<string>)
      requires Valid()
      modifies this
      ensures Valid()
      ensures (old(dragged).Some? && old(dragged).value != "") ==>
        var kind := old(dragged).value;
        && History() == Save(old(History())).(current :=
             Appended(old(canvas), NewElement(old(nextId), kind, x, y, BaseStyle, DefaultContent(kind))))
        && nextId == old(nextId) + 1
        && dragged == None
        && message == Some(kind + " added to canvas")
      ensures !(old(dragged).Some? && old(dragged).value != "") ==>
        && canvas == old(canvas) && undoStack == old(undoStack) && redoStack == old(redoStack)
        && nextId == old(nextId) && dragged == old(dragged)
        && message == None
    {
      if dragged.Some? && dragged.value != "" {
        var note := AddElementToCanvas(dragged.value, x, y);
        dragged := None;
        message := Some(note);
      } else {
        message := None;
      }
    }

    /** addElementToCanvas (app.js:140-197): a new, unselected element of the
        given type at (x, y) with the type's content, appended last; the
        placeholder goes. */
    method AddElementToCanvas(kind: string, x: int, y: int) returns (message: string)
      requires Valid()
      modifies this
      ensures Valid()
      ensures History() == Save(old(History())).(current :=
        Appended(old(canvas), NewElement(old(nextId), kind, x, y, BaseStyle, DefaultContent(kind))))
      ensures nextId == old(nextId) + 1 && dragged == old(dragged)
      ensures message == kind + " added to canvas"
    {
      SaveCanvasState();
      var e := NewElement(nextId, kind, x, y, BaseStyle, DefaultContent(kind));
      AppendFreshKeepsWellFormed(canvas, e, nextId);
      Commit(Appended(canvas, e), nextId + 1);
      message := kind + " added to canvas";
    }

    /** selectElement (app.js:199-210): clear every element's selection
        border, then give element `i` the selection border. */
    method SelectElement(i: nat)
      requires Valid() && i < |canvas.elements|
      modifies this
      ensures Valid()
      ensures canvas == old(canvas).(elements := Highlighted(old(canvas.elements), i))
      ensures undoStack == old(undoStack) && redoStack == old(redoStack)
      ensures dragged == old(dragged) && nextId == old(nextId)
    {
      var elems := canvas.elements;
      var k := 0;
      while k < |elems|
        invariant 0 <= k <= |elems| && |elems| == |canvas.elements|
        invariant forall j :: 0 <= j < k ==> elems[j] == canvas.elements[j].(selected := false)
        invariant forall j :: k <= j < |elems| ==> elems[j] == canvas.elements[j]
      {
        elems := elems[k := elems[k].(selected := false)];
        k := k + 1;
      }
      elems := elems[i := elems[i].(selected := true)];
      SameIdsKeepWellFormed(canvas, elems, nextId);
      canvas := canvas.(elements := elems);
    }

    /** The double-click handler of an element (app.js:186-191): remove that
        element. */
    method DeleteAt(i: nat) returns (message: string)
      requires Valid() && i < |canvas.elements|
      modifies this
      ensures Valid()
      ensures History() == Save(old(History())).(current :=
        old(canvas).(elements := RemovedAt(old(canvas.elements), i)))
      ensures nextId == old(nextId) && dragged == old(dragged)
      ensures message == "Element deleted"
    {
      SaveCanvasState();
      RemoveKeepsWellFormed(canvas, i, nextId);
      Commit(canvas.(elements := RemovedAt(canvas.elements, i)), nextId);
      message := "Element deleted";
    }

    /** A double-click on element `i` as the page delivers it: two clicks,
        each running selectElement (app.js:183), then the dblclick handler
        (app.js:186-191). The snapshot saved is the canvas with `i` as the
        only selected element, and afterwards no element is selected. */
    method DoubleClick(i: nat) returns (message: string)
      requires Valid() && i < |canvas.elements|
      modifies this
      ensures Valid()
      ensures var selected := old(canvas).(elements := Highlighted(old(canvas.elements), i));
        History() == Save(Timeline(old(undoStack), selected, old(redoStack))).(current :=
          selected.(elements := RemovedAt(selected.elements, i)))
      ensures FirstSelected(canvas.elements) == None
      ensures nextId == old(nextId) && dragged == old(dragged)
      ensures message == "Element deleted"
    {
      SelectElement(i);
      HighlightTwice(old(canvas.elements), i);
      SelectElement(i);
      message := DeleteAt(i);
      SelectThenRemoveLeavesNoSelection(old(canvas.elements), i);
    }

    /** updateElementStyle (app.js:771-778): with a selected element, set one
        style property of the first selected element; with none, nothing
        happens. */
    method UpdateElementStyle(edit: StyleEdit) returns (message: Option<string>)
      requires Valid() && IsPanelEdit(edit)
      modifies this
      ensures Valid()
      ensures nextId == old(nextId) && dragged == old(dragged)
      ensures FirstSelected(old(canvas.elements)).Some? ==>
        var i := FirstSelected(old(canvas.elements)).value;
        && History() == Save(old(History())).(current :=
             old(canvas).(elements := old(canvas.elements)[i := Restyled(old(canvas.elements)[i], edit)]))
        && message == Some("Updated " + PropertyName(edit))
      ensures FirstSelected(old(canvas.elements)).None? ==>
        canvas == old(canvas) && undoStack == old(undoStack) && redoStack == old(redoStack) && message == None
    {
      match FirstSelected(canvas.elements)
      case None =>
        message := None;
      case Some(i) =>
        SaveCanvasState();
        var elems := canvas.elements[i := Restyled(canvas.elements[i], edit)];
        SameIdsKeepWellFormed(canvas, elems, nextId);
        Commit(canvas.(elements := elems), nextId);
        message := Some("Updated " + PropertyName(edit));
    }

    /** duplicateElement (app.js:826-848): with a selected element, append a
        clone of the first selected element with a fresh id, moved by
        (+20, +20); with none, nothing happens. */
    method DuplicateElement() returns (message: Option<string>)
      requires Valid()
      modifies this
      ensures Valid()
      ensures dragged == old(dragged)
      ensures FirstSelected(old(canvas.elements)).Some? ==>
        var i := FirstSelected(old(canvas.elements)).value;
        && History() == Save(old(History())).(current :=
             Appended(old(canvas), Duplicated(old(canvas.elements)[i], old(nextId))))
        && nextId == old(nextId) + 1
        && message == Some("Element duplicated")
      ensures FirstSelected(old(canvas.elements)).None? ==>
        && canvas == old(canvas) && undoStack == old(undoStack) && redoStack == old(redoStack)
        && nextId == old(nextId) && message == None
    {
      match FirstSelected(canvas.elements)
      case None =>
        message := None;
      case Some(i) =>
        SaveCanvasState();
        var clone := Duplicated(canvas.elements[i], nextId);
        AppendFreshKeepsWellFormed(canvas, clone, nextId);
        Commit(Appended(canvas, clone), nextId + 1);
        message := Some("Element duplicated");
    }

    /** deleteElement (app.js:850-863): with a selected element, remove the
        first selected element; with none, nothing happens. */
    method DeleteElement() returns (message: Option<string>)
      requires Valid()
      modifies this
      ensures Valid()
      ensures nextId == old(nextId) && dragged == old(dragged)
      ensures FirstSelected(old(canvas.elements)).Some? ==>
        var i := FirstSelected(old(canvas.elements)).value;
        && History() == Save(old(History())).(current :=
             old(canvas).(elements := RemovedAt(old(canvas.elements), i)))
        && message == Some("Element deleted")
      ensures FirstSelected(old(canvas.elements)).None? ==>
        canvas == old(canvas) && undoStack == old(undoStack) && redoStack == old(redoStack) && message == None
    {
      match FirstSelected(canvas.elements)
      case None =>
        message := None;
      case Some(i) =>
        SaveCanvasState();
        RemoveKeepsWellFormed(canvas, i, nextId);
        Commit(canvas.(elements := RemovedAt(canvas.elements, i)), nextId);
        message := Some("Element deleted");
    }

    /** insertAIContentToEditor (app.js:622-679), its delayed part run at
        once: unless the guard rejects the content, append an unselected
        "text" element at (50, 50) holding it. */
    method InsertAIContent(content: string) returns (message: string)
      requires Valid()
      modifies this
      ensures Valid()
      ensures dragged == old(dragged)
      ensures !NothingToInsert(content) ==>
        && History() == Save(old(History())).(current := Appended(old(canvas),
             NewElement(old(nextId), "text", InsertLeft, InsertTop, GeneratedTextStyle, GeneratedText(content))))
        && nextId == old(nextId) + 1
        && message == "AI content inserted into editor!"
      ensures NothingToInsert(content) ==>
        && canvas == old(canvas) && undoStack == old(undoStack) && redoStack == old(redoStack)
        && nextId == old(nextId) && message == "No content to insert"
    {
      if NothingToInsert(content) {
        return "No content to insert";
      }
      SaveCanvasState();
      var e := NewElement(nextId, "text", InsertLeft, InsertTop, GeneratedTextStyle, GeneratedText(content));
      AppendFreshKeepsWellFormed(canvas, e, nextId);
      Commit(Appended(canvas, e), nextId + 1);
      message := "AI content inserted into editor!";
    }

    /** insertAIImageToEditor (app.js:681-734), its delayed part run at once:
        append an unselected "image" element at (50, 50) holding the fixed
        generated-image box. */
    method InsertAIImage() returns (message: string)
      requires Valid()
      modifies this
      ensures Valid()
      ensures dragged == old(dragged)
      ensures History() == Save(old(History())).(current := Appended(old(canvas),
        NewElement(old(nextId), "image", InsertLeft, InsertTop, BaseStyle, GeneratedImage)))
      ensures nextId == old(nextId) + 1
      ensures message == "AI image inserted into editor!"
    {
      SaveCanvasState();
      var e := NewElement(nextId, "image", InsertLeft, InsertTop, BaseStyle, GeneratedImage);
      AppendFreshKeepsWellFormed(canvas, e, nextId);
      Commit(Appended(canvas, e), nextId + 1);
      message := "AI image inserted into editor!";
    }
  }
}
