/** The canvas document of the editor (app.js:140-206, 637-733, 771-863).

    The page keeps the canvas as DOM children of `#website-canvas`; here it is
    a value: whether the "drop elements here" placeholder is still shown, and
    the `.canvas-element` children in document order. Each element records
    what its markup holds: its id and type attributes, its `left`/`top`
    pixel position, its other inline style properties, its inner content,
    and whether it carries the 2px selection border. */
module Document {
  import opened Wrappers

  /** The inner markup of an element. */
  datatype Content =
    | Empty             // a type the creation switch does not know
    | SampleText        // "<p>Sample text block</p>"
    | ImageBox          // the grey 150x100 "Image" box
    | SampleButton      // the purple "Button" button
    | DashedContainer   // the dashed 200x100 "Container" box
    | GeneratedText(text: string)  // `<div>${content}</div>` of an AI text insert
    | GeneratedImage    // the fixed "AI Generated Image" box

  datatype Element = Element(
    id: nat,
    kind: string,
    left: int,
    top: int,
    style: map<string, string>,
    content: Content,
    selected: bool)

  datatype Canvas = Canvas(placeholder: bool, elements: seq<Element>)

  /** Inline style every created element gets, apart from its position and
      border (app.js:155-162, 701-708). */
  const BaseStyle: map<string, string> :=
    map["position" := "absolute", "padding" := "10px", "borderRadius" := "4px",
        "background" := "white", "cursor" := "move"]

  /** Inline style of an inserted AI text block (app.js:650-658). */
  const GeneratedTextStyle: map<string, string> :=
    BaseStyle["padding" := "15px"]["maxWidth" := "400px"]

  /** Position of every AI insertion (app.js:651-652, 702-703). */
  const InsertLeft: int := 50
  const InsertTop: int := 50

  /** Offset of a duplicate from its original (app.js:831-832). */
  const DuplicateOffset: int := 20

  /** The four element types the creation switch knows (app.js:167-180). */
  const KnownKinds: set<string> := {"text", "image", "button", "container"}

  /** The content the creation switch gives a dropped element; the switch has
      no default, so any other type keeps empty content. */
  function DefaultContent(kind: string): (c: Content)
    ensures c == Empty <==> kind !in KnownKinds
  {
    if kind == "text" then SampleText
    else if kind == "image" then ImageBox
    else if kind == "button" then SampleButton
    else if kind == "container" then DashedContainer
    else Empty
  }

  /** A new, unselected element (1px grey border) with a fresh id. */
  function NewElement(id: nat, kind: string, left: int, top: int,
                      style: map<string, string>, content: Content): (r: Element)
    ensures !r.selected
    ensures r.id == id && r.kind == kind && r.left == left && r.top == top
    ensures r.style == style && r.content == content
  {
    Element(id, kind, left, top, style, content, false)
  }

  /** Appending a created element: the placeholder is removed first, and the
      element goes last in document order. */
  function Appended(c: Canvas, e: Element): (r: Canvas)
    ensures !r.placeholder && |r.elements| == |c.elements| + 1
    ensures r.elements[..|c.elements|] == c.elements && r.elements[|c.elements|] == e
  {
    Canvas(false, c.elements + [e])
  }

  /** `document.querySelector` for the selection border: the index of the
      first element, in document order, that is selected. */
  function FirstSelected(s: seq<Element>): (r: Option<nat>)
    ensures r.Some? ==> r.value < |s| && s[r.value].selected
    ensures r.Some? ==> forall j :: 0 <= j < r.value ==> !s[j].selected
    ensures r.None? <==> forall j :: 0 <= j < |s| ==> !s[j].selected
  {
    if s == [] then None
    else if s[0].selected then Some(0)
    else match FirstSelected(s[1..])
      case None => None
      case Some(k) => Some(k + 1)
  }

  /** selectElement's effect: every element loses the selection border and
      element `i` gets it. */
  function Highlighted(s: seq<Element>, i: nat): (r: seq<Element>)
    requires i < |s|
    ensures |r| == |s|
    ensures forall j :: 0 <= j < |s| ==> (r[j].selected <==> j == i)
    ensures forall j :: 0 <= j < |s| ==> r[j].(selected := s[j].selected) == s[j]
  {
    seq(|s|, j requires 0 <= j < |s| => s[j].(selected := j == i))
  }

  /** After selecting element `i`, it is the first selected element and
      hence the one every selection-based operation acts on. */
  lemma HighlightSelectsOnly(s: seq<Element>, i: nat)
    requires i < |s|
    ensures FirstSelected(Highlighted(s, i)) == Some(i)
  {
    var r := Highlighted(s, i);
    assert r[i].selected;
    match FirstSelected(r)
    case Some(k) =>
      assert r[k].selected;
    case None =>
  }

  /** Removing element `i`: the others keep their order. */
  function RemovedAt(s: seq<Element>, i: nat): (r: seq<Element>)
    requires i < |s|
    ensures |r| == |s| - 1
    ensures forall j :: 0 <= j < i ==> r[j] == s[j]
    ensures forall j :: i <= j < |r| ==> r[j] == s[j + 1]
  {
    s[..i] + s[i + 1..]
  }

  /** What a number input of the properties panel holds: empty (cleared, or
      text the browser does not read as a number) or an integer. */
  datatype NumberField = Cleared | Number(n: int)

  /** A style change the properties panel makes (app.js:225-237, 272-276):
      the colour input sets backgroundColor, the width, height and border
      radius inputs set that property to the field's value followed by `px`,
      and the X/Y position inputs set `left`/`top` the same way. */
  datatype StyleEdit =
    | SetBackgroundColor(color: string)
    | SetSize(name: string, field: NumberField)
    | SetLeft(pos: NumberField)
    | SetTop(pos: NumberField)

  /** The properties the size inputs send. */
  const SizeProperties: set<string> := {"width", "height", "borderRadius"}

  /** Every property name the panel sends to updateElementStyle. */
  const PanelProperties: set<string> := SizeProperties + {"backgroundColor", "left", "top"}

  /** What a colour input produces: `#` and six lower-case hex digits. */
  predicate IsHexColor(s: string)
  {
    |s| == 7 && s[0] == '#' && forall k :: 1 <= k < 7 ==> s[k] in "0123456789abcdef"
  }

  /** The edits the panel's inputs can produce. */
  predicate IsPanelEdit(edit: StyleEdit)
  {
    match edit
    case SetBackgroundColor(color) => IsHexColor(color)
    case SetSize(name, _) => name in SizeProperties
    case _ => true
  }

  /** Whether the browser's style parser takes the assigned value. An empty
      field gives `"px"`, which no property accepts, and a negative width,
      height or radius is not a valid value for those properties; an
      assignment the parser rejects leaves the property as it was. */
  predicate BrowserAccepts(edit: StyleEdit)
  {
    match edit
    case SetBackgroundColor(_) => true
    case SetSize(_, field) => field.Number? && field.n >= 0
    case SetLeft(pos) => pos.Number?
    case SetTop(pos) => pos.Number?
  }

  /** The character of decimal digit `d`. */
  function Digit(d: nat): (c: char)
    requires d < 10
    ensures '0' <= c <= '9' && c as int - '0' as int == d
  {
    ('0' as int + d) as char
  }

  /** The number a string of decimal digits denotes. */
  function NumeralValue(s: string): nat
    requires forall k :: 0 <= k < |s| ==> '0' <= s[k] <= '9'
  {
    if s == [] then 0
    else NumeralValue(s[..|s| - 1]) * 10 + (s[|s| - 1] as int - '0' as int)
  }

  /** `String(n)` for a non-negative integer: its decimal numeral, with no
      leading zero. */
  function Decimal(n: nat): (r: string)
    ensures r != [] && forall k :: 0 <= k < |r| ==> '0' <= r[k] <= '9'
    ensures NumeralValue(r) == n
    ensures r[0] == '0' ==> r == "0"
  {
    if n < 10 then [Digit(n)]
    else
      var front := Decimal(n / 10);
      var r := front + [Digit(n % 10)];
      assert r[..|r| - 1] == front;
      r
  }

  /** The property name an edit passes to updateElementStyle, and hence
      reports in its notification. */
  function PropertyName(edit: StyleEdit): (r: string)
    ensures IsPanelEdit(edit) ==> r in PanelProperties
    ensures edit.SetSize? ==> r == edit.name
  {
    match edit
    case SetBackgroundColor(_) => "backgroundColor"
    case SetSize(name, _) => name
    case SetLeft(_) => "left"
    case SetTop(_) => "top"
  }

  /** The style of `r` is that of `e` with property `name` set to `value`;
      position and every other property are unchanged. */
  predicate StyleSetOnly(e: Element, r: Element, name: string, value: string)
  {
    && r.left == e.left && r.top == e.top
    && name in r.style && r.style[name] == value
    && r.style.Keys == e.style.Keys + {name}
    && forall p :: p in e.style && p != name ==> r.style[p] == e.style[p]
  }

  /** `element.style[property] = value` for a panel edit: a value the browser
      accepts takes effect on the named property alone, a rejected one
      changes nothing; the id, type, content and selection always stay. */
  function Restyled(e: Element, edit: StyleEdit): (r: Element)
    requires IsPanelEdit(edit)
    ensures r.id == e.id && r.kind == e.kind && r.content == e.content && r.selected == e.selected
    ensures !BrowserAccepts(edit) ==> r == e
    ensures BrowserAccepts(edit) ==> match edit
      case SetBackgroundColor(color) => StyleSetOnly(e, r, "backgroundColor", color)
      case SetSize(name, field) => StyleSetOnly(e, r, name, Decimal(field.n) + "px")
      case SetLeft(pos) => r.left == pos.n && r.top == e.top && r.style == e.style
      case SetTop(pos) => r.top == pos.n && r.left == e.left && r.style == e.style
  {
    if !BrowserAccepts(edit) then e
    else match edit
      case SetBackgroundColor(color) => e.(style := e.style["backgroundColor" := color])
      case SetSize(name, field) => e.(style := e.style[name := Decimal(field.n) + "px"])
      case SetLeft(pos) => e.(left := pos.n)
      case SetTop(pos) => e.(top := pos.n)
  }

  /** `cloneNode(true)` with a new id, moved by DuplicateOffset both ways:
      the clone has the type, style, content and selection of its original,
      and sits DuplicateOffset pixels right of and below it. */
  function Duplicated(e: Element, id: nat): (r: Element)
    ensures r.(id := e.id, left := e.left, top := e.top) == e
    ensures r.id == id && r.left == e.left + 20 && r.top == e.top + 20
  {
    e.(id := id, left := e.left + DuplicateOffset, top := e.top + DuplicateOffset)
  }

  /** Appending the clone of the selected element leaves the original the
      selected one: the clone carries the selection border too, but comes
      later in document order. */
  lemma DuplicateKeepsSelection(s: seq<Element>, id: nat)
    requires FirstSelected(s).Some?
    ensures FirstSelected(s + [Duplicated(s[FirstSelected(s).value], id)]) == FirstSelected(s)
  {
    var i := FirstSelected(s).value;
    var t := s + [Duplicated(s[i], id)];
    assert t[i].selected;
    match FirstSelected(t)
    case Some(k) =>
      assert !(k < i) && !(i < k);
    case None =>
  }

  /** Appending a new (unselected) element leaves the selection as it was:
      creating an element does not select it. */
  lemma AppendUnselectedKeepsSelection(s: seq<Element>, e: Element)
    requires !e.selected
    ensures FirstSelected(s + [e]) == FirstSelected(s)
  {
    var t := s + [e];
    match FirstSelected(s)
    case Some(i) =>
      assert t[i].selected;
      match FirstSelected(t) {
        case Some(k) =>
          assert !(k < i) && !(i < k);
        case None =>
      }
    case None =>
      assert forall j :: 0 <= j < |t| ==> !t[j].selected by {
        forall j | 0 <= j < |t| ensures !t[j].selected {
          if j < |s| { assert t[j] == s[j]; }
        }
      }
  }

  /** Selecting an element that is already the only selected one changes
      nothing: the second click of a double-click. */
  lemma HighlightTwice(s: seq<Element>, i: nat)
    requires i < |s|
    ensures Highlighted(Highlighted(s, i), i) == Highlighted(s, i)
  {
    var h := Highlighted(s, i);
    var hh := Highlighted(h, i);
    forall j | 0 <= j < |s|
      ensures hh[j] == h[j]
    {
      assert hh[j].(selected := h[j].selected) == h[j];
    }
  }

  /** A double-click selects the element and then deletes it: no element is
      left selected. */
  lemma SelectThenRemoveLeavesNoSelection(s: seq<Element>, i: nat)
    requires i < |s|
    ensures var r := RemovedAt(Highlighted(s, i), i);
      && (forall j :: 0 <= j < |r| ==> !r[j].selected)
      && FirstSelected(r) == None
  {
  }

  /** Removing the first of exactly two selected elements, when the other
      is last, leaves the last element as the only, and first, selected one. */
  lemma RemoveFirstOfTwoSelected(t: seq<Element>, i: nat)
    requires i < |t| - 1
    requires forall j :: 0 <= j < |t| ==> (t[j].selected <==> j == i || j == |t| - 1)
    ensures var u := RemovedAt(t, i);
      && (forall j :: 0 <= j < |u| ==> (u[j].selected <==> j == |u| - 1))
      && FirstSelected(u) == Some(|u| - 1)
  {
    var u := RemovedAt(t, i);
    assert u[|u| - 1] == t[|t| - 1];
    match FirstSelected(u)
    case Some(k) =>
      assert !(k < |u| - 1);
    case None =>
      assert false;
  }

  /** After selecting element `i` and appending its clone, exactly element
      `i` and the clone carry the selection border. */
  lemma DuplicateAfterSelectFlagsTwo(s: seq<Element>, i: nat, id: nat)
    requires i < |s|
    ensures var h := Highlighted(s, i);
      var t := h + [Duplicated(h[i], id)];
      forall j :: 0 <= j < |t| ==> (t[j].selected <==> j == i || j == |t| - 1)
  {
    var h := Highlighted(s, i);
    var t := h + [Duplicated(h[i], id)];
    forall j | 0 <= j < |t|
      ensures t[j].selected <==> j == i || j == |t| - 1
    {
      if j < |h| { assert t[j] == h[j]; }
    }
  }

  /** Deleting does not have to clear the selection: after selecting element
      `i`, duplicating the selection and deleting the selection, the clone,
      now last, is the only selected element. */
  lemma DeleteAfterDuplicateLeavesCloneSelected(s: seq<Element>, i: nat, id: nat)
    requires i < |s|
    ensures var h := Highlighted(s, i);
      var t := h + [Duplicated(h[i], id)];
      && FirstSelected(t) == Some(i)
      && var u := RemovedAt(t, i);
      && |u| == |s|
      && (forall j :: 0 <= j < |u| ==> (u[j].selected <==> j == |u| - 1))
      && u[|u| - 1].id == id
      && FirstSelected(u) == Some(|u| - 1)
  {
    var h := Highlighted(s, i);
    var t := h + [Duplicated(h[i], id)];
    HighlightSelectsOnly(s, i);
    DuplicateKeepsSelection(h, id);
    DuplicateAfterSelectFlagsTwo(s, i, id);
    RemoveFirstOfTwoSelected(t, i);
  }

  /** No two elements share an id. */
  predicate UniqueIds(s: seq<Element>)
  {
    forall i, j :: 0 <= i < j < |s| ==> s[i].id != s[j].id
  }

  /** A canvas the editor can reach, given that every id handed out so far is
      below `bound`: ids are unique and below `bound`, and the placeholder is
      only shown while the canvas has no elements. */
  predicate WellFormed(c: Canvas, bound: nat)
  {
    && UniqueIds(c.elements)
    && (forall i :: 0 <= i < |c.elements| ==> c.elements[i].id < bound)
    && (c.placeholder ==> c.elements == [])
  }

  predicate AllWellFormed(stack: seq<Canvas>, bound: nat)
  {
    forall k :: 0 <= k < |stack| ==> WellFormed(stack[k], bound)
  }

  /** A larger bound keeps a stack of canvases well formed. */
  lemma WellFormedGrows(stack: seq<Canvas>, bound: nat, bound': nat)
    requires AllWellFormed(stack, bound) && bound <= bound'
    ensures AllWellFormed(stack, bound')
  {
  }

  /** Appending an element whose id is the next fresh one keeps the canvas
      well formed for the next bound. */
  lemma AppendFreshKeepsWellFormed(c: Canvas, e: Element, bound: nat)
    requires WellFormed(c, bound) && e.id == bound
    ensures WellFormed(Appended(c, e), bound + 1)
  {
  }

  /** Removing an element keeps the canvas well formed. */
  lemma RemoveKeepsWellFormed(c: Canvas, i: nat, bound: nat)
    requires WellFormed(c, bound) && i < |c.elements|
    ensures WellFormed(c.(elements := RemovedAt(c.elements, i)), bound)
  {
    var r := RemovedAt(c.elements, i);
    forall a, b | 0 <= a < b < |r|
      ensures r[a].id != r[b].id
    {
      var a' := if a < i then a else a + 1;
      var b' := if b < i then b else b + 1;
      assert r[a] == c.elements[a'] && r[b] == c.elements[b'];
    }
  }

  /** Changing elements without touching their ids or their number keeps the
      canvas well formed. */
  lemma SameIdsKeepWellFormed(c: Canvas, s: seq<Element>, bound: nat)
    requires WellFormed(c, bound) && |s| == |c.elements|
    requires forall j :: 0 <= j < |s| ==> s[j].id == c.elements[j].id
    ensures WellFormed(c.(elements := s), bound)
  {
  }
}
