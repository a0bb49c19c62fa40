/** The photo crop selector: an uploaded image is shown on the crop canvas, the user drags
    a rectangle, and releasing the mouse copies that region into a fresh pending image that
    a separate button confirms. */
module Crop {
  import opened Common
  import opened Raster

  /** `photoCropSection` visibility, `uploadedPhoto`, `croppedPhoto`, `cropStart` and
      `cropRect`. Images are represented by their pixels. */
  datatype CropState = CropState(
    sectionShown: bool,
    uploaded: Option<Surface>,
    cropped: Option<Surface>,
    cropStart: Option<Point>,
    cropRect: Option<Rect>)

  const Initial := CropState(false, None, None, None, None)

  function Min(a: int, b: int): int {
    if a <= b then a else b
  }

  function Abs(a: int): nat {
    if a < 0 then -a else a
  }

  /** The rectangle spanned by a drag from `a` to `p`, whichever way it goes: its top-left
      corner is the coordinate-wise minimum of the two points, and `a` and `p` sit on
      opposite corners. */
  function Normalize(a: Point, p: Point): (r: Rect)
    ensures r.x <= a.x && r.x <= p.x && r.y <= a.y && r.y <= p.y
    ensures a.x == r.x || a.x == r.x + r.w
    ensures a.y == r.y || a.y == r.y + r.h
    ensures a.x + p.x == 2 * r.x + r.w && a.y + p.y == 2 * r.y + r.h
  {
    Rect(Min(a.x, p.x), Min(a.y, p.y), Abs(a.x - p.x), Abs(a.y - p.y))
  }

  /** Dragging the other way round selects the same rectangle. */
  lemma NormalizeSymmetric(a: Point, p: Point)
    ensures Normalize(a, p) == Normalize(p, a)
  {
  }

  /** When both drag ends lie on a `w` by `h` canvas, so does the whole rectangle. */
  lemma NormalizeInside(a: Point, p: Point, w: nat, h: nat)
    requires 0 <= a.x <= w && 0 <= p.x <= w && 0 <= a.y <= h && 0 <= p.y <= h
    ensures var r := Normalize(a, p); 0 <= r.x && r.x + r.w <= w && 0 <= r.y && r.y + r.h <= h
  {
  }

  /** A decoded upload (`None` when no file was chosen or it never decoded) becomes the
      uploaded photo, opens the crop section and discards the pending crop; the drag
      registers are left as they were. */
  function Upload(s: CropState, decoded: Option<Surface>): (t: CropState)
    ensures decoded.None? ==> t == s
    ensures decoded.Some? ==> t.uploaded == decoded && t.cropped.None? && t.sectionShown
    ensures t.cropStart == s.cropStart && t.cropRect == s.cropRect
  {
    match decoded
    case None => s
    case Some(_) => s.(uploaded := decoded, cropped := None, sectionShown := true)
  }

  /** Mouse-down anchors a new drag and forgets the previous rectangle. */
  function MouseDown(s: CropState, p: Point): (t: CropState)
    ensures t.cropStart == Some(p) && t.cropRect.None?
    ensures t.uploaded == s.uploaded && t.cropped == s.cropped && t.sectionShown == s.sectionShown
  {
    s.(cropStart := Some(p), cropRect := None)
  }

  /** Mouse-move without an anchor does nothing; with one it replaces the rectangle by the
      one spanned from the anchor to the pointer. */
  function MouseMove(s: CropState, p: Point): (t: CropState)
    ensures s.cropStart.None? ==> t == s
    ensures s.cropStart.Some? ==> t.cropRect == Some(Normalize(s.cropStart.value, p))
    ensures t.cropStart == s.cropStart && t.uploaded == s.uploaded && t.cropped == s.cropped
    ensures t.sectionShown == s.sectionShown
  {
    match s.cropStart
    case None => s
    case Some(a) => s.(cropRect := Some(Normalize(a, p)))
  }

  predicate Degenerate(r: Rect) {
    r.w == 0 || r.h == 0
  }

  /** Mouse-up exactly as the script is written, with `canvas` the crop canvas's pixels at
      release time. `getImageData` throws when the width or height is zero, which aborts the
      handler before the anchor is reset, so that case leaves everything as it was. */
  function MouseUpAsWritten(s: CropState, canvas: Surface): (t: CropState)
    ensures (s.cropRect.None? || s.uploaded.None?) ==> t == s.(cropStart := None)
    ensures s.cropRect.Some? && s.uploaded.Some? && Degenerate(s.cropRect.value) ==> t == s
    ensures s.cropRect.Some? && s.uploaded.Some? && !Degenerate(s.cropRect.value) ==>
      t == s.(cropped := Some(Extract(canvas, s.cropRect.value)), cropStart := None)
  {
    if s.cropRect.None? || s.uploaded.None? then s.(cropStart := None)
    else if Degenerate(s.cropRect.value) then s
    else s.(cropped := Some(Extract(canvas, s.cropRect.value)), cropStart := None)
  }

  /** Mouse-up as intended: every release ends the drag. Without a usable rectangle (none,
      zero-sized, or no uploaded photo) only the anchor is reset and the pending crop is
      kept; otherwise the pending crop becomes exactly the selected `w` by `h` region of the
      crop canvas, pixel (i, j) taken from canvas column `x + j`, row `y + i`. */
  function MouseUp(s: CropState, canvas: Surface): (t: CropState)
    ensures t.cropStart.None?
    ensures t.uploaded == s.uploaded && t.cropRect == s.cropRect && t.sectionShown == s.sectionShown
    ensures (s.cropRect.None? || s.uploaded.None? || Degenerate(s.cropRect.value)) ==> t.cropped == s.cropped
    ensures s.cropRect.Some? && s.uploaded.Some? && !Degenerate(s.cropRect.value) ==>
      var r := s.cropRect.value;
      && t.cropped.Some?
      && HasSize(t.cropped.value, r.w, r.h)
      && forall i, j :: 0 <= i < r.h && 0 <= j < r.w ==> t.cropped.value[i][j] == PixelAt(canvas, r.x + j, r.y + i)
  {
    if s.cropRect.None? || s.uploaded.None? || Degenerate(s.cropRect.value) then s.(cropStart := None)
    else s.(cropped := Some(Extract(canvas, s.cropRect.value)), cropStart := None)
  }

  /** Once the mouse is released, further mouse movement changes nothing until the next
      mouse-down. */
  lemma MovesAfterReleaseAreInert(s: CropState, canvas: Surface, p: Point)
    ensures MouseMove(MouseUp(s, canvas), p) == MouseUp(s, canvas)
  {
  }

  /** The two mouse-up definitions agree on every release except a zero-width or
      zero-height selection over an uploaded photo. */
  lemma MouseUpAgreesOffDegenerate(s: CropState, canvas: Surface)
    requires s.cropRect.None? || s.uploaded.None? || !Degenerate(s.cropRect.value)
    ensures MouseUpAsWritten(s, canvas) == MouseUp(s, canvas)
  {
  }

  /** As written, a purely vertical drag over an uploaded photo leaves the anchor set, so
      the selection keeps following the pointer after the button is released. */
  lemma DegenerateDragKeepsFollowing(photo: Surface, canvas: Surface)
    ensures var s := MouseMove(MouseDown(Upload(Initial, Some(photo)), Point(10, 10)), Point(10, 40));
      var t := MouseUpAsWritten(s, canvas);
      && t.cropStart == Some(Point(10, 10))
      && MouseMove(t, Point(50, 60)) != t
      && MouseMove(t, Point(50, 60)).cropRect == Some(Rect(10, 10, 40, 50))
  {
  }

  /** What the confirm button reports. */
  datatype Confirmation = Accepted | Rejected(message: string)

  datatype Confirmed = Confirmed(outcome: Confirmation, state: CropState)

  const NoCropMessage := "Please select and crop your photo."

  /** The confirm button accepts exactly when a crop is pending, then hides the crop
      section; otherwise it rejects with a message and changes nothing. */
  function ConfirmCrop(s: CropState): (c: Confirmed)
    ensures c.outcome.Accepted? <==> s.cropped.Some?
    ensures s.cropped.None? ==> c.state == s && c.outcome == Rejected(NoCropMessage)
    ensures s.cropped.Some? ==> c.state == s.(sectionShown := false)
  {
    if s.cropped.Some? then Confirmed(Accepted, s.(sectionShown := false))
    else Confirmed(Rejected(NoCropMessage), s)
  }

  /** A new upload always leaves nothing to confirm. */
  lemma UploadThenConfirmRejects(s: CropState, photo: Surface)
    ensures ConfirmCrop(Upload(s, Some(photo))).outcome.Rejected?
  {
  }
}
