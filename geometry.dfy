/** The annotation geometry of front-end/src/App.tsx: mapping mouse
    positions onto the displayed image, the crop request in natural pixels,
    the on-screen selection box, and the two annotation state machines (the
    crop drag and the arrow clicks) as pure step functions. */
module Geometry {
  import opened Wrappers

  /** A rectangle as `getBoundingClientRect` reports it, in viewport pixels. */
  datatype Rect = Rect(left: real, top: real, width: real, height: real)

  /** The displayed `<img>`: its bounding rectangle, its layout size
      (`img.width`, `img.height`, whole pixels) and its intrinsic size
      (`naturalWidth`, `naturalHeight`). */
  datatype ImageElement = ImageElement(rect: Rect, width: int, height: int, naturalWidth: nat, naturalHeight: nat)

  /** An image element that has been laid out: every size the handlers divide by is positive. */
  type LaidOutImage = img: ImageElement
    | img.rect.width > 0.0 && img.rect.height > 0.0 && img.width > 0 && img.height > 0
    witness ImageElement(Rect(0.0, 0.0, 1.0, 1.0), 1, 1, 0, 0)

  /** A point in natural image pixels. */
  datatype Point = Point(x: int, y: int)

  /** The crop rectangle in display pixels, its corners in drag order. */
  datatype SelectionBox = SelectionBox(startX: real, startY: real, endX: real, endY: real)

  /** A drag must exceed this many display pixels on both axes to be offered for cropping. */
  const MinCropSize: real := 10.0

  function Min(a: real, b: real): real { if a <= b then a else b }
  function Max(a: real, b: real): real { if a <= b then b else a }
  function Abs(a: real): real { if a < 0.0 then -a else a }

  /** `Math.round`: the nearest integer, halves rounded up. */
  function Round(x: real): (n: int)
    ensures n as real - 0.5 <= x < n as real + 0.5
  {
    (x + 0.5).Floor
  }

  lemma RoundOfInt(k: int)
    ensures Round(k as real) == k
  {
  }

  lemma RoundMonotone(a: real, b: real)
    requires a <= b
    ensures Round(a) <= Round(b)
  {
  }

  /** `Math.max(0, Math.min(v, limit))`. */
  function Clamp(v: real, limit: real): (c: real)
    ensures 0.0 <= c
    ensures 0.0 <= limit ==> c <= limit
    ensures 0.0 <= v <= limit ==> c == v
    ensures v < 0.0 ==> c == 0.0
    ensures 0.0 <= limit < v ==> c == limit
  {
    var m := if v <= limit then v else limit;
    if 0.0 <= m then m else 0.0
  }

  // ---------------------------------------------------------------------------
  // Mouse positions

  /** What `getRelativeCoords` returns: the clamped position inside the image,
      and the image's offset inside its container. */
  datatype Coords = Coords(x: real, y: real, offsetX: real, offsetY: real, imageWidth: real, imageHeight: real)

  /** `getRelativeCoords`: the mouse relative to the image's top-left corner,
      kept inside the image; nothing while either element is missing. */
  function RelativeCoords(container: Option<Rect>, image: Option<LaidOutImage>, clientX: real, clientY: real)
    : (r: Option<Coords>)
    ensures r.Some? <==> container.Some? && image.Some?
    ensures r.Some? ==>
      var rect := image.value.rect;
      && 0.0 <= r.value.x <= rect.width && 0.0 <= r.value.y <= rect.height
      && (rect.left <= clientX <= rect.left + rect.width ==> r.value.x == clientX - rect.left)
      && (clientX < rect.left ==> r.value.x == 0.0)
      && (clientX > rect.left + rect.width ==> r.value.x == rect.width)
      && (rect.top <= clientY <= rect.top + rect.height ==> r.value.y == clientY - rect.top)
      && (clientY < rect.top ==> r.value.y == 0.0)
      && (clientY > rect.top + rect.height ==> r.value.y == rect.height)
      && r.value.offsetX == rect.left - container.value.left
      && r.value.offsetY == rect.top - container.value.top
      && r.value.imageWidth == rect.width && r.value.imageHeight == rect.height
  {
    if container.None? || image.None? then None
    else
      var rect := image.value.rect;
      Some(Coords(Clamp(clientX - rect.left, rect.width), Clamp(clientY - rect.top, rect.height),
                  rect.left - container.value.left, rect.top - container.value.top,
                  rect.width, rect.height))
  }

  /** A clamped display coordinate scaled into natural pixels never leaves [0, natural]. */
  lemma ScaleWithin(c: real, size: real, natural: nat)
    requires 0.0 <= c <= size && size > 0.0
    ensures 0.0 <= c * (natural as real / size) <= natural as real
  {
    var s := natural as real / size;
    assert s >= 0.0;
    assert c * s <= size * s;
    assert size * s == natural as real;
  }

  /** One axis of a click in natural pixels: the display offset clamped to the
      rendered size, scaled by natural / rendered, rounded once. */
  function NaturalCoord(offset: real, size: real, natural: nat): (n: int)
    requires size > 0.0
    ensures 0 <= n <= natural
    ensures offset <= 0.0 ==> n == 0
    ensures offset >= size ==> n == natural
    ensures var exact := Clamp(offset, size) * (natural as real / size);
      n as real - 0.5 <= exact < n as real + 0.5
  {
    var c := Clamp(offset, size);
    ScaleWithin(c, size, natural);
    RoundMonotone(0.0, c * (natural as real / size));
    RoundMonotone(c * (natural as real / size), natural as real);
    RoundOfInt(0);
    RoundOfInt(natural);
    assert offset >= size ==> c * (natural as real / size) == natural as real;
    Round(c * (natural as real / size))
  }

  /** The point `handleArrowClick` records for a click at (clientX, clientY). */
  function ArrowPoint(image: LaidOutImage, clientX: real, clientY: real): (p: Point)
    ensures 0 <= p.x <= image.naturalWidth && 0 <= p.y <= image.naturalHeight
  {
    Point(NaturalCoord(clientX - image.rect.left, image.rect.width, image.naturalWidth),
          NaturalCoord(clientY - image.rect.top, image.rect.height, image.naturalHeight))
  }

  /** Clicks on the image's corners, or beyond them, record the natural image's corners. */
  lemma ArrowPointCorners(image: LaidOutImage, clientX: real, clientY: real)
    ensures clientX <= image.rect.left && clientY <= image.rect.top ==>
      ArrowPoint(image, clientX, clientY) == Point(0, 0)
    ensures clientX >= image.rect.left + image.rect.width && clientY >= image.rect.top + image.rect.height ==>
      ArrowPoint(image, clientX, clientY) == Point(image.naturalWidth, image.naturalHeight)
  {
  }

  /** The overlay draws a stored point at `n / natural` of its size, taken here
      as the bounding rectangle's size; that spot is within half a natural
      pixel (in display units) of the clamped click. */
  lemma OverlayWithinHalfPixel(offset: real, size: real, natural: nat)
    requires size > 0.0 && natural > 0
    ensures var back := NaturalCoord(offset, size, natural) as real / natural as real * size;
      Abs(back - Clamp(offset, size)) <= size / (2.0 * natural as real)
  {
    var n := NaturalCoord(offset, size, natural) as real;
    var c := Clamp(offset, size);
    var s := natural as real / size;
    var k := size / natural as real;
    var e := c * s;
    assert s * k == 1.0;
    assert e * k == c by {
      assert e * k == c * (s * k);
    }
    assert n / natural as real * size == n * k;
    ScaleInequality(n - 0.5, e, k);
    ScaleInequality(e, n + 0.5, k);
    assert 0.5 * k == size / (2.0 * natural as real);
  }

  lemma ScaleInequality(a: real, b: real, k: real)
    requires a <= b && k >= 0.0
    ensures a * k <= b * k
  {
  }

  // ---------------------------------------------------------------------------
  // The crop request and the on-screen selection box

  /** The body of the `/api/cut-image` request, in natural pixels. */
  datatype CropRequest = CropRequest(imagePath: string, x: int, y: int, width: int, height: int)

  /** The rectangle a selection spans: left, top, right, bottom. */
  function Span(s: SelectionBox): (real, real, real, real) {
    (Min(s.startX, s.endX), Min(s.startY, s.endY), Max(s.startX, s.endX), Max(s.startY, s.endY))
  }

  /** `handleConfirmCut`'s payload: the top-left corner and the size of the
      selection, each scaled by natural / layout size and rounded once. */
  function CropRequestOf(imagePath: string, s: SelectionBox, img: LaidOutImage): (r: CropRequest)
    ensures r.imagePath == imagePath
    ensures r.width >= 0 && r.height >= 0
    ensures Span(s).0 >= 0.0 ==> r.x >= 0
    ensures Span(s).1 >= 0.0 ==> r.y >= 0
  {
    var scaleX := img.naturalWidth as real / img.width as real;
    var scaleY := img.naturalHeight as real / img.height as real;
    var x := Min(s.startX, s.endX) * scaleX;
    var y := Min(s.startY, s.endY) * scaleY;
    var width := Abs(s.endX - s.startX) * scaleX;
    var height := Abs(s.endY - s.startY) * scaleY;
    CropRequest(imagePath, Round(x), Round(y), Round(width), Round(height))
  }

  /** The request depends only on the rectangle spanned, not on the drag direction. */
  lemma CropRequestOfSpan(imagePath: string, s: SelectionBox, t: SelectionBox, img: LaidOutImage)
    requires Span(s) == Span(t)
    ensures CropRequestOf(imagePath, s, img) == CropRequestOf(imagePath, t, img)
  {
    assert Abs(s.endX - s.startX) == Span(s).2 - Span(s).0;
    assert Abs(t.endX - t.startX) == Span(t).2 - Span(t).0;
    assert Abs(s.endY - s.startY) == Span(s).3 - Span(s).1;
    assert Abs(t.endY - t.startY) == Span(t).3 - Span(t).1;
  }

  /** A selection inside the image yields a crop that starts inside the natural
      image and overshoots its right and bottom edges by at most one pixel,
      since the corner and the size are rounded separately. */
  lemma CropRequestWithinImage(imagePath: string, s: SelectionBox, img: LaidOutImage)
    requires 0.0 <= s.startX <= img.width as real && 0.0 <= s.endX <= img.width as real
    requires 0.0 <= s.startY <= img.height as real && 0.0 <= s.endY <= img.height as real
    ensures var r := CropRequestOf(imagePath, s, img);
      && 0 <= r.x && r.x + r.width <= img.naturalWidth + 1
      && 0 <= r.y && r.y + r.height <= img.naturalHeight + 1
  {
    var scaleX := img.naturalWidth as real / img.width as real;
    var scaleY := img.naturalHeight as real / img.height as real;
    var (left, top, right, bottom) := Span(s);
    assert Abs(s.endX - s.startX) == right - left;
    assert Abs(s.endY - s.startY) == bottom - top;
    assert left * scaleX + (right - left) * scaleX == right * scaleX;
    assert top * scaleY + (bottom - top) * scaleY == bottom * scaleY;
    ScaleWithin(right, img.width as real, img.naturalWidth);
    ScaleWithin(bottom, img.height as real, img.naturalHeight);
  }

  /** The general bound for the boxes the clamp produces, which stay inside the
      bounding rectangle: the crop's far edges pass the rectangle's width and
      height, scaled by natural / layout size, by at most one pixel. When the
      rectangle is wider than the layout size, that bound exceeds the natural
      image by the difference, scaled. */
  lemma CropRequestWithinRect(imagePath: string, s: SelectionBox, img: LaidOutImage)
    requires 0.0 <= s.startX <= img.rect.width && 0.0 <= s.endX <= img.rect.width
    requires 0.0 <= s.startY <= img.rect.height && 0.0 <= s.endY <= img.rect.height
    ensures var r := CropRequestOf(imagePath, s, img);
      && 0 <= r.x && (r.x + r.width) as real <= img.rect.width * (img.naturalWidth as real / img.width as real) + 1.0
      && 0 <= r.y && (r.y + r.height) as real <= img.rect.height * (img.naturalHeight as real / img.height as real) + 1.0
  {
    var r := CropRequestOf(imagePath, s, img);
    CropAxisBound(s.startX, s.endX, img.rect.width, img.naturalWidth as real / img.width as real, r.x, r.width);
    CropAxisBound(s.startY, s.endY, img.rect.height, img.naturalHeight as real / img.height as real, r.y, r.height);
  }

  /** One axis of `CropRequestWithinRect`: the rounded start plus the rounded
      length is at most the scaled limit plus one. */
  lemma CropAxisBound(a: real, b: real, limit: real, scale: real, start: int, length: int)
    requires 0.0 <= a <= limit && 0.0 <= b <= limit && scale >= 0.0
    requires start == Round(Min(a, b) * scale) && length == Round(Abs(b - a) * scale)
    ensures 0 <= start && (start + length) as real <= limit * scale + 1.0
  {
    var lo, hi := Min(a, b), Max(a, b);
    assert Abs(b - a) == hi - lo;
    assert lo * scale + (hi - lo) * scale == hi * scale;
    ScaleInequality(0.0, lo, scale);
    ScaleInequality(hi, limit, scale);
    var x, w := Round(lo * scale), Round((hi - lo) * scale);
    assert x as real <= lo * scale + 0.5 && w as real <= (hi - lo) * scale + 0.5;
  }

  /** The one-pixel overshoot happens: a 6-pixel-wide image shown 4 pixels wide,
      dragged from x = 1 to the right edge, asks for columns 2 to 6 inclusive. */
  lemma CropRequestOvershoot()
    ensures var img: LaidOutImage := ImageElement(Rect(0.0, 0.0, 4.0, 4.0), 4, 4, 6, 6);
      var r := CropRequestOf("originals/a.png", SelectionBox(1.0, 1.0, 4.0, 4.0), img);
      r.x == 2 && r.width == 5 && r.x + r.width == img.naturalWidth + 1
  {
    RoundOfInt(2);
    RoundOfInt(5);
    assert Round(1.5) == 2;
    assert Round(4.5) == 5;
  }

  /** A 4000x3000 image shown at 800x600, dragged from
      (100, 100) to (300, 250), is cropped at (500, 500) with size 1000x750. */
  lemma CropRequestExample(imagePath: string)
    ensures var img: LaidOutImage := ImageElement(Rect(0.0, 0.0, 800.0, 600.0), 800, 600, 4000, 3000);
      CropRequestOf(imagePath, SelectionBox(100.0, 100.0, 300.0, 250.0), img)
        == CropRequest(imagePath, 500, 500, 1000, 750)
  {
    RoundOfInt(500);
    RoundOfInt(1000);
    RoundOfInt(750);
  }

  /** CSS position and size of the selection box inside the image container. */
  datatype Style = Style(left: real, top: real, width: real, height: real)

  /** `getSelectionStyle`: the selection shifted by the image's offset inside
      its container; nothing when a selection or an element is missing. */
  function SelectionStyle(selection: Option<SelectionBox>, image: Option<LaidOutImage>, container: Option<Rect>)
    : (r: Option<Style>)
    ensures r.Some? <==> selection.Some? && image.Some? && container.Some?
    ensures r.Some? ==>
      var (left, top, right, bottom) := Span(selection.value);
      var offsetX := image.value.rect.left - container.value.left;
      var offsetY := image.value.rect.top - container.value.top;
      && r.value.width >= 0.0 && r.value.height >= 0.0
      && r.value.left == left + offsetX && r.value.left + r.value.width == right + offsetX
      && r.value.top == top + offsetY && r.value.top + r.value.height == bottom + offsetY
  {
    if selection.None? || image.None? || container.None? then None
    else
      var s := selection.value;
      var offsetX := image.value.rect.left - container.value.left;
      var offsetY := image.value.rect.top - container.value.top;
      Some(Style(Min(s.startX, s.endX) + offsetX, Min(s.startY, s.endY) + offsetY,
                 Abs(s.endX - s.startX), Abs(s.endY - s.startY)))
  }

  // ---------------------------------------------------------------------------
  // The crop drag

  /** `isDrawing`, `selection` and `showConfirm`. */
  datatype CropState = CropState(isDrawing: bool, selection: Option<SelectionBox>, showConfirm: bool)

  predicate LargeEnough(s: SelectionBox) {
    Abs(s.endX - s.startX) > MinCropSize && Abs(s.endY - s.startY) > MinCropSize
  }

  /** The confirmation is offered only after a finished drag that is large enough. */
  predicate CropInvariant(c: CropState) {
    c.showConfirm ==> !c.isDrawing && c.selection.Some? && LargeEnough(c.selection.value)
  }

  /** Mouse-down at a display position: a fresh, empty box whose corners both sit there. */
  function Press(x: real, y: real): CropState {
    CropState(true, Some(SelectionBox(x, y, x, y)), false)
  }

  /** Mouse-move to a display position: only the moving corner follows, and only while drawing. */
  function Drag(c: CropState, x: real, y: real): (r: CropState)
    ensures r.isDrawing == c.isDrawing && r.showConfirm == c.showConfirm
    ensures r.selection.Some? <==> c.selection.Some?
    ensures c.selection.Some? ==>
      r.selection.value.startX == c.selection.value.startX && r.selection.value.startY == c.selection.value.startY
    ensures c.isDrawing && c.selection.Some? ==> r.selection.value.endX == x && r.selection.value.endY == y
    ensures !c.isDrawing ==> r == c
    ensures CropInvariant(c) ==> CropInvariant(r)
  {
    if !c.isDrawing || c.selection.None? then c
    else c.(selection := Some(c.selection.value.(endX := x, endY := y)))
  }

  /** Mouse-up or mouse-leave: the drag ends, and the box is kept for
      confirmation when large enough and discarded otherwise. */
  function Release(c: CropState): (r: CropState)
    ensures !r.isDrawing
    ensures !c.isDrawing ==> r == c
    ensures c.isDrawing && c.selection.Some? ==>
      && (r.selection.Some? <==> LargeEnough(c.selection.value))
      && (LargeEnough(c.selection.value) ==> r.showConfirm)
      && (!LargeEnough(c.selection.value) ==> r.showConfirm == c.showConfirm)
    ensures r.selection.Some? ==> r.selection == c.selection
    ensures CropInvariant(c) ==> CropInvariant(r)
  {
    if !c.isDrawing then c
    else if c.selection.None? then c.(isDrawing := false)
    else if LargeEnough(c.selection.value) then c.(isDrawing := false, showConfirm := true)
    else c.(isDrawing := false, selection := None)
  }

  /** A run of mouse-moves. */
  function DragAll(c: CropState, moves: seq<(real, real)>): CropState
    decreases |moves|
  {
    if moves == [] then c else DragAll(Drag(c, moves[0].0, moves[0].1), moves[1..])
  }

  /** Where the moving corner is after a run of moves that started at (x, y). */
  function LastPosition(x: real, y: real, moves: seq<(real, real)>): (real, real) {
    if moves == [] then (x, y) else moves[|moves| - 1]
  }

  /** During a drag the fixed corner stays put and the moving corner sits at the last move. */
  lemma {:induction false} DragAllKeepsStart(c: CropState, moves: seq<(real, real)>)
    requires c.isDrawing && c.selection.Some?
    decreases |moves|
    ensures var box := c.selection.value;
      var (ex, ey) := LastPosition(box.endX, box.endY, moves);
      DragAll(c, moves) == c.(selection := Some(box.(endX := ex, endY := ey)))
  {
    if moves != [] {
      var d := Drag(c, moves[0].0, moves[0].1);
      DragAllKeepsStart(d, moves[1..]);
      var box := c.selection.value;
      var e := d.selection.value;
      assert e == box.(endX := moves[0].0, endY := moves[0].1);
      if |moves| > 1 {
        assert moves[1..][|moves| - 2] == moves[|moves| - 1];
      }
    }
  }

  /** A whole gesture (down at (x, y), some moves, up) is offered for confirmation
      exactly when its last position is more than the threshold away on both axes;
      otherwise no box remains. */
  lemma Gesture(x: real, y: real, moves: seq<(real, real)>)
    ensures var (ex, ey) := LastPosition(x, y, moves);
      var c := Release(DragAll(Press(x, y), moves));
      && !c.isDrawing
      && (c.showConfirm <==> Abs(ex - x) > MinCropSize && Abs(ey - y) > MinCropSize)
      && (c.showConfirm ==> c.selection == Some(SelectionBox(x, y, ex, ey)))
      && (!c.showConfirm ==> c.selection.None?)
  {
    DragAllKeepsStart(Press(x, y), moves);
  }

  /** The on-screen box of a drag between two mouse positions inside the image
      lies exactly under them, measured from the container's corner. */
  lemma SelectionStyleUnderMouse(container: Rect, image: LaidOutImage, x0: real, y0: real, x1: real, y1: real)
    requires image.rect.left <= x0 <= image.rect.left + image.rect.width
    requires image.rect.left <= x1 <= image.rect.left + image.rect.width
    requires image.rect.top <= y0 <= image.rect.top + image.rect.height
    requires image.rect.top <= y1 <= image.rect.top + image.rect.height
    ensures var p := RelativeCoords(Some(container), Some(image), x0, y0).value;
      var q := RelativeCoords(Some(container), Some(image), x1, y1).value;
      var c := Drag(Press(p.x, p.y), q.x, q.y);
      var st := SelectionStyle(c.selection, Some(image), Some(container)).value;
      && st.left == Min(x0, x1) - container.left && st.width == Abs(x1 - x0)
      && st.top == Min(y0, y1) - container.top && st.height == Abs(y1 - y0)
  {
  }

  // ---------------------------------------------------------------------------
  // The arrow clicks

  /** `arrowStart` and `arrowEnd`, in natural pixels. */
  datatype ArrowState = ArrowState(start: Option<Point>, end: Option<Point>)

  const NoArrow: ArrowState := ArrowState(None, None)

  /** An end point never exists without a start point. */
  predicate ArrowInvariant(a: ArrowState) {
    a.end.Some? ==> a.start.Some?
  }

  /** Both points are set: the arrow can be saved. */
  predicate ArrowComplete(a: ArrowState) {
    a.start.Some? && a.end.Some?
  }

  /** One click at a natural point: it completes a half-drawn arrow and
      otherwise starts a new one. */
  function Click(a: ArrowState, p: Point): (r: ArrowState)
    ensures ArrowInvariant(r)
    ensures r.start == Some(p) || r.end == Some(p)
    ensures (a.start.Some? && a.end.None?) <==> (r.start == a.start && r.end == Some(p))
    ensures !(a.start.Some? && a.end.None?) ==> r == ArrowState(Some(p), None)
  {
    if a.start.None? then ArrowState(Some(p), None)
    else if a.end.None? then a.(end := Some(p))
    else ArrowState(Some(p), None)
  }

  /** From an empty or a complete arrow, two clicks draw the arrow between them. */
  lemma TwoClicksDrawArrow(a: ArrowState, p: Point, q: Point)
    requires ArrowInvariant(a) && (a.start.None? || a.end.Some?)
    ensures Click(a, p) == ArrowState(Some(p), None)
    ensures Click(Click(a, p), q) == ArrowState(Some(p), Some(q))
  {
  }

  /** Clicks A, B, C give (A, none), then (A, B), then (C, none). */
  lemma ClickSequence(pa: Point, pb: Point, pc: Point)
    ensures Click(NoArrow, pa) == ArrowState(Some(pa), None)
    ensures Click(Click(NoArrow, pa), pb) == ArrowState(Some(pa), Some(pb))
    ensures Click(Click(Click(NoArrow, pa), pb), pc) == ArrowState(Some(pc), None)
  {
  }

  /** The body of the `/api/save-arrow-image` request, in natural pixels. */
  datatype ArrowRequest = ArrowRequest(imagePath: string, startX: int, startY: int, endX: int, endY: int)
}
