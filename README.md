# Canvas editing session of the website builder, in Dafny

The website builder in `app.js` lets a user drag typed blocks (text, image,
button, container) from a palette onto a canvas. The user can select a block,
restyle it, duplicate or delete it, insert AI-generated text and images, and
undo or redo every change. This project models that editing session:

- the canvas as a value (`Document.Canvas`): whether the drop placeholder is
  still shown, and the `.canvas-element` children in order, each with its id,
  type, `left`/`top` position, other inline style, content and selection border;
- the undo/redo history (`UndoHistory`): a generic `Timeline` with the undo
  stack, the live canvas and the redo stack, and the three operations
  `saveCanvasState`, `performUndo` and `performRedo` as functions over it;
- the session itself (`Editor.Session`): a class whose fields are the globals
  of app.js (the canvas, `undoStack`, `redoStack`, `draggedElement`) plus a
  fresh-id supply. Its methods are the event handlers. Each method's
  postcondition ties the new fields to the history functions and the document
  functions, and each keeps the class invariant `Valid()`.

`Valid()` says three things. Ids are unique and fresh, in the live canvas and
in every snapshot. The placeholder only shows on an empty canvas. The undo and
redo stacks together hold at most 50 snapshots.

What is proved besides the method contracts:

- Saving keeps the newest entries and always empties the redo stack.
- Undo then redo, and redo then undo, both restore the whole timeline.
- After up to 50 recorded changes, as many undos restore the starting canvas.
- After any number of changes from an empty history, `k` undos reach exactly
  `min(k, changes, 50)` steps back, so with 60 changes the 10 oldest states
  (the starting canvas and the first nine changes) are lost.
- Selecting leaves exactly one element selected.
- A duplicate is a shifted copy, and the original stays the selected element.
- Restyling changes only the named property.
- JavaScript's `trim` is specified exactly, and the AI insertion guard refuses
  exactly the empty content and the placeholder text with whitespace around it.
- A style value the browser rejects records a snapshot but leaves the element
  as it was.

The model follows the code of app.js at four points where one would expect
something else: a rejected element type, a selection cleared by delete, an
image built from the prompt, and a limit on every push onto the undo stack.
The code does this:

- A drop with an unknown type still appends an element. It has empty content,
  because the creation switch has no default case (app.js:167-180); nothing
  rejects the type.
- Deleting the selection removes only the first selected element. A duplicate
  carries the selection border too, so after duplicate-then-delete the clone
  is the only selected element (`Document.DeleteAfterDuplicateLeavesCloneSelected`).
- An inserted AI image always gets the same fixed markup. The chosen image,
  prompt and style are not used (app.js:713-718).
- Redo pushes onto the undo stack with no 50-entry limit (app.js:400). This is
  modelled as written. `UndoHistory.RedoHasNoLimit` shows that redo alone can
  make the stack exceed 50. `UndoHistory.StepsKeepBounded` shows that this
  never happens from a reachable state: saving resets the redo stack, and
  undo and redo only move entries between the stacks, so the total stays at
  most 50.

Files: `wrappers.dfy` (Option), `history.dfy` (module `UndoHistory`),
`document.dfy` (module `Document`), `jsstring.dfy` (module `JsString`),
`editor.dfy` (module `Editor`).

## Model

| member | source | states |
|---|---|---|
| `UndoHistory.Save` | app.js:345-363 | The live canvas becomes the newest undo entry. The stack grows by one below 50 entries and otherwise keeps its length; which entries stay is stated by `SaveKeepsNewest`. The redo stack is emptied and the canvas is unchanged. |
| `UndoHistory.Undo` | app.js:365-386 | With an empty undo stack nothing changes. Otherwise the popped newest undo entry becomes the canvas and the old canvas is pushed onto the redo stack. |
| `UndoHistory.Redo` | app.js:388-409 | With an empty redo stack nothing changes. Otherwise the popped newest redo entry becomes the canvas and the old canvas is pushed onto the undo stack, with no limit. |
| `UndoHistory.StepsKeepBounded` | app.js:352-403 | Save, Undo and Redo each keep the two stacks at 50 snapshots or fewer in total. Under that invariant, the undo stack has at most 50 entries, even after a redo. |
| `UndoHistory.RedoHasNoLimit` | app.js:400 | From a timeline outside the invariant (50 undo entries and one redo entry), Redo makes the undo stack 51 long. |
| `UndoHistory.UndoThenRedo` | app.js:365-409 | A non-empty undo followed by a redo restores the canvas and both stacks exactly. |
| `UndoHistory.RedoThenUndo` | app.js:365-409 | A non-empty redo followed by an undo restores the canvas and both stacks exactly. |
| `UndoHistory.UndoRevertsChange` | app.js:352-380 | Undo right after a recorded change restores the canvas from before the change and leaves the changed canvas as the only redo entry. Below 50 entries the undo stack is also as before. |
| `UndoHistory.EditAfterUndoDropsRedo` | app.js:359-360 | After an undo, recording a new change leaves nothing to redo, and Redo is then a no-op. |
| `UndoHistory.SaveKeepsNewest` | app.js:352-357 | From at most 50 entries, the undo stack after a save is the newest 50 of the old stack followed by the canvas. |
| `UndoHistory.EditsKeepNewest` | app.js:352-360 | After any run of recorded changes that starts within the limit, the undo stack followed by the canvas is exactly the newest 51 documents of the run. The redo stack is empty. |
| `UndoHistory.UndoTimesWalksBack` | app.js:371-380 | `k` undos, with at least `k` entries stacked, step back `k` places along the undo stack followed by the canvas. |
| `UndoHistory.UndoTimesExhausted` | app.js:366-369 | Once the undo stack is empty, any number of further undos changes nothing. |
| `UndoHistory.UndoRevertsEdits` | app.js:345-386 | Up to 50 recorded changes, undone as many times, give back the starting canvas. |
| `UndoHistory.EditsFromEmpty` | app.js:352-357 | From an empty undo stack, after `n` changes the undo stack holds `min(n, 50)` entries: the documents just before the current one. |
| `UndoHistory.UndoWalksAlong` | app.js:366-380 | When the stack and canvas end a sequence of documents, `k` undos show the document `min(k, stack depth)` places back. |
| `UndoHistory.OnlyNewestRecoverable` | app.js:354-357 | From an empty history, `k` undos after the changes show the document `min(k, changes, 50)` steps back. Older documents cannot be reached again. |
| `JsString.TrimStart` | app.js:626 | Drops exactly the leading trimmable characters. The result is a suffix and does not start with one. |
| `JsString.TrimEnd` | app.js:626 | Drops exactly the trailing trimmable characters. The result is a prefix and does not end with one. |
| `JsString.Trim` | app.js:626 | The result is a slice of the input. Everything cut off around it is trimmable, and the result neither starts nor ends with a trimmable character. |
| `JsString.TrimStartSkips` | app.js:626 | When the first `i` characters are trimmable and the next is not, TrimStart removes exactly those `i`. |
| `JsString.TrimEndSkips` | app.js:626 | When everything from index `j` on is trimmable and the character before is not, TrimEnd keeps exactly the first `j`. |
| `JsString.TrimOfCut` | app.js:626 | `trim` is unique: any non-empty middle part that neither starts nor ends with a trimmable character, with only trimmable characters around it, is the result of `trim`. |
| `Editor.NothingToInsert` | app.js:626 | Content the guard refuses is either empty or the placeholder text with only whitespace around it. |
| `Editor.PaddedPlaceholderIsRefused` | app.js:626 | Conversely, the placeholder text with any whitespace around it is refused. |
| `Editor.BlankContentPassesGuard` | app.js:626 | The guard tests emptiness before trimming, so every non-empty content made only of whitespace passes it and is inserted. |
| `Document.DefaultContent` | app.js:166-180 | The content is empty exactly when the type is not one of text, image, button or container. |
| `Document.Appended` | app.js:145-150 | Creation removes the placeholder. The element goes last and every earlier element keeps its place and contents. |
| `Document.FirstSelected` | app.js:772 | The result is the first element, in document order, that carries the selection border. If there is none, the result is None. |
| `Document.NewElement` | app.js:153-164 | A created element carries the given id, type, position, style and content, and not the selection border. |
| `Document.AppendUnselectedKeepsSelection` | app.js:140-197 | Appending an unselected element leaves the first selected element as it was: creating an element does not select it. |
| `Document.Highlighted` | app.js:201-206 | After selecting element `i`, element `i` and no other carries the selection border, and nothing but the selection flags changed. |
| `Document.HighlightSelectsOnly` | app.js:199-206 | After selecting element `i`, it is the first selected element, the one every selection-based handler acts on. |
| `Document.HighlightTwice` | app.js:183 | Selecting the element that is already selected changes nothing, so the second click of a double-click has no effect. |
| `Document.SelectThenRemoveLeavesNoSelection` | app.js:183-191 | Selecting an element and then removing it leaves no element selected. |
| `Document.RemovedAt` | app.js:852-854 | One element fewer, and the remaining elements keep their order. |
| `Document.PropertyName` | app.js:225-276 | Every panel edit names one of backgroundColor, width, height, borderRadius, left and top; a size edit names its own property. |
| `Document.Decimal` | app.js:229 | The number input's value as text: a non-empty string of decimal digits, with no leading zero, whose value is the number. |
| `Document.Restyled` | app.js:775 | A value the browser rejects (an empty field, a negative size) leaves the element unchanged. Otherwise the named property takes the new value: the colour, the size as decimal digits followed by `px`, or the position. All other properties, the id, type, content and selection are unchanged. |
| `Document.Duplicated` | app.js:830-833 | The clone equals its original except for the given new id and a position 20 px right and 20 px down: same type, style, content and selection. |
| `Document.DuplicateKeepsSelection` | app.js:827-844 | Appending the clone of the first selected element leaves the original as the first selected element. |
| `Document.DuplicateAfterSelectFlagsTwo` | app.js:826-833 | After selecting an element and duplicating it, exactly the original and the clone carry the selection border, since `cloneNode` copies it. |
| `Document.RemoveFirstOfTwoSelected` | app.js:850-854 | When exactly two elements are selected and the other is last, deleting the first selected leaves the last as the only selected element. |
| `Document.DeleteAfterDuplicateLeavesCloneSelected` | app.js:826-854 | On any canvas, after selecting an element, duplicating the selection and deleting the selection, the clone, now last, is the only selected element and is the first selected one. |
| `Document.WellFormedGrows` | app.js:164 | Snapshots stay well formed as the id supply advances. |
| `Document.AppendFreshKeepsWellFormed` | app.js:164 | Appending an element with the next fresh id keeps ids unique and below the new bound, with the placeholder gone. |
| `Document.RemoveKeepsWellFormed` | app.js:854 | Removing an element keeps ids unique. |
| `Document.SameIdsKeepWellFormed` | app.js:201-206 | Changing elements without changing their ids or their number keeps the canvas well formed. |
| `Editor.Session.constructor` | app.js:3-6 | A session starts with an empty canvas, empty stacks and no drag, and is Valid. |
| `Editor.Session.SaveCanvasState` | app.js:345-363 | The stacks and canvas become `Save` of the old ones, and `Valid` is kept. |
| `Editor.Session.PerformUndo` | app.js:365-386 | The stacks and canvas become `Undo` of the old ones. The result is "Nothing to undo" exactly when the undo stack was empty, otherwise "Undo performed". |
| `Editor.Session.PerformRedo` | app.js:388-409 | The stacks and canvas become `Redo` of the old ones. The result is "Nothing to redo" exactly when the redo stack was empty, otherwise "Redo performed". |
| `Editor.Session.DragStart` | app.js:109-112 | The drag state becomes the dragged item's type attribute. Nothing else changes. |
| `Editor.Session.Drop` | app.js:129-137 | With a non-empty dragged type: one save, then one new unselected element of that type at (x, y), the drag cleared, and the "added" message. Otherwise nothing changes and there is no message. |
| `Editor.Session.AddElementToCanvas` | app.js:140-197 | One save, then one new unselected element with a fresh id, the base style and the type's content, appended at (x, y). The placeholder is removed. |
| `Editor.Session.SelectElement` | app.js:199-210 | Every element loses the selection border and element `i` gets it. The history is untouched. |
| `Editor.Session.DeleteAt` | app.js:186-191 | The dblclick handler alone: one save, then the element is removed and the rest keep their order. |
| `Editor.Session.DoubleClick` | app.js:183-191 | The whole double-click gesture (two clicks, then dblclick): the snapshot saved has the element as the only selected one, the element is removed, and afterwards no element is selected. |
| `Editor.Session.UpdateElementStyle` | app.js:771-778 | With a selected element: one save, then one property of the first selected element is changed, and "Updated <property>" is reported. With none selected: nothing changes and no history is recorded. |
| `Editor.Session.DuplicateElement` | app.js:826-848 | With a selected element: one save, then the shifted clone of the first selected element, with a fresh id, is appended. With none selected: nothing changes. |
| `Editor.Session.DeleteElement` | app.js:850-863 | With a selected element: one save, then the first selected element is removed. With none selected: nothing changes. |
| `Editor.Session.InsertAIContent` | app.js:622-679 | Content that is empty, or trims to the output's placeholder text, changes nothing and reports "No content to insert". Otherwise: one save, then an unselected text element at (50, 50) holding the content. |
| `Editor.Session.InsertAIImage` | app.js:681-734 | One save, then an unselected image element at (50, 50) holding the fixed generated-image box. |

## Left out

- Screen navigation, dashboard buttons, device-width selector, code-editor toggle, publish and preview buttons (app.js:17-94, 289-342): page chrome with no state the canvas depends on.
- `showNotification` (app.js:735-768): its animation and timers are presentation. Each method returns the message it would show instead.
- The AI generators `generateSampleContent`, `generateSampleImages` and `performSEOAnalysis` (app.js:447-619): random text and numbers behind timers. The content generator's text reaches the model as the `content` argument of `InsertAIContent`. The image gallery is left out, but note how it calls the core: every click on a gallery tile adds one more `dblclick` listener (app.js:550-562), and a double-click sends two clicks first, so a double-click on a tile calls `InsertAIImage` once per click the tile has received, at least twice. Each call saves a snapshot and stacks one more image at (50, 50), so one undo removes only one of them.
- The 500 ms `setTimeout` before each AI insertion (app.js:637, 688) is modelled as an immediate insertion. The switch to the editor screen before it is left out, with the rest of screen navigation. Two overlapping insertions, whose order depends on timing, are not modelled.
- The animation handlers `applyAnimation`, `setAnimationDuration`, `setAnimationDelay` and `previewAnimation` (app.js:781-824): they rely on forced reflow and CSS timing strings, and they record no history.
- `restoreEventListeners`, `updateCanvasElements` and `updateUndoRedoButtons` (app.js:411-438): they re-attach listeners and cache DOM nodes. The enabled state of the undo and redo buttons follows from whether the stacks are empty.
- `showElementProperties` (app.js:212-287), and clearing the properties panel in `deleteElement`: they generate panel markup.
- The keyboard shortcuts (app.js:866-902): Ctrl+Z and Ctrl+Y call PerformUndo and PerformRedo. The Ctrl+Shift+Z branch tests `e.key === 'z'`, which Shift normally turns into `'Z'`, so it seldom fires. Ctrl+D and Delete call DuplicateElement and DeleteElement. Ctrl+S only shows the notification "Auto-save enabled" and changes no state.
- The dragover, dragleave and dragend CSS class changes (app.js:114-127). Note that dragend does not clear the drag state, and the model keeps that.
- Snapshot timestamps (app.js:349, 374, 397) are never read, so they are left out.
- Element ids: `'element-' + Date.now()` is replaced by a counter that is always fresh. Two elements created within the same millisecond would share an id in the page; in the model they do not.
- Element markup is abstracted to the `Content` tags. Inline style is a map from property names to strings, and position is two integers. Fractional drop offsets (`e.offsetX`) and `parseInt` truncation of `left`/`top` are not modelled.
- The selection border is the flag `selected`. The CSS attribute match on `border: 2px solid` is not modelled as text. CSS shorthand interplay, such as `background` and `backgroundColor`, is not modelled either.
- Editor.Session.UpdateElementStyle: takes only the edits the properties panel sends (app.js:225-237, 272-276): a `#rrggbb` colour, or a number field for width, height, borderRadius, left or top. A border property, which could add or remove the selection marker, is excluded. Number fields hold integers; fractional and exponent values are not modelled. A value is rejected when the field is empty or, for a size, negative; other CSS limits are not modelled.
- The initial markup of the canvas is not part of this model. The constructor takes whether the placeholder is shown.
- The React views in `src/App.js`, `src/Editor.js`, `src/AITools.js` and `src/Dashboard.js` are static pages with no logic.
