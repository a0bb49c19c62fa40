# Kenya ID card generator: the browser logic, in Dafny

This project models the logic of `script.js`, the single script behind the
browser ID-card generator. It covers:

- the **signature pad**: a two-state stroke recorder with a last-point register,
  the clear button and the "is the canvas blank" test over the packed 32-bit
  pixel words;
- the **photo crop selector**: upload, drag anchor, normalised rectangle,
  extraction of the selected region on mouse-up, and the confirm button's guard;
- the **submit handler**: the fields are read and trimmed, then an ordered chain
  of seven checks runs (missing field, missing crop, name over 30, district over 15,
  place over 15, under 18, blank signature), and either the first failing check's
  alert results or a fresh card record with an 8-digit ID number and a 9-digit
  serial number;
- **`updateIDCardHtml`**, **`formatDate`** and **`randomDigits`**.

Everything is modelled as immutable datatypes and pure functions.

- **Browser state** becomes explicit state records: `drawing`, `[lastX, lastY]`,
  `uploadedPhoto`, `croppedPhoto`, `cropStart` and `cropRect`.
- **Canvases** become pixel surfaces: rows of RGBA bytes.
- **Randomness** becomes parameters. Today's date and the `Math.random` digit draws
  are passed in.

Modules:

| module | file | contents |
|---|---|---|
| `Common` | common.dfy | `Option`, `Result` |
| `Text` | text.dfy | `trim` (ECMAScript whitespace), `.length` in UTF-16 code units, ASCII `toUpperCase`, decimal `String(n)`, `padStart` |
| `Raster` | raster.dfy | pixels, surfaces, `Uint32Array` packing (little-endian chosen; the blank check holds in either byte order), blank check, `clearRect`, `getImageData` |
| `Signature` | signature.dfy | the stroke recorder and its event table, replay over event runs, the clear button |
| `Crop` | crop.dfy | the crop selector state machine and the confirm button |
| `Dates` | dates.dfy | calendar dates, the age rule, `formatDate` |
| `Card` | card.dfy | the card record and `updateIDCardHtml` |
| `Form` | form.dfy | `form.onsubmit`, its check chain and `randomDigits` |
| `Page` | page.dfy | the pad and the crop selector as one page state, read by the submit button |

Two behaviours of the code are worth knowing before reading the model:

- **Zero-size crop.** The mouse-up handler only guards on `cropRect` being set. A
  zero-width or zero-height selection therefore reaches `getImageData`, which throws
  `IndexSizeError` for a zero width or height (HTML Living Standard, "getImageData").
  Line 140, `cropStart = null`, is never reached, and no image is produced. See
  "Findings".
- **Confirm is optional.** `croppedPhoto` is set at mouse-up (script.js:134). The
  confirm button only hides the crop section (script.js:147-154), and submit checks
  only `croppedPhoto` (script.js:193). A submit gives the same outcome whether or not
  the crop was confirmed (`Page.ConfirmNotNeeded`).

## Model

| member | source | states |
|---|---|---|
| Signature.StartDraw | script.js:7-11 | a start event always puts the pad into drawing mode with the pointer as the last point, whatever the prior state |
| Signature.Draw | script.js:12-26 | while idle a move strokes nothing and changes nothing; while drawing it strokes exactly the segment from the last point to the pointer, and the pointer becomes the last point |
| Signature.EndDraw | script.js:27-30 | an end event makes the pad idle and keeps the last point |
| Signature.EndDrawIdempotent | script.js:27-30 | ending twice is the same as ending once, and ending an idle pad changes nothing |
| Signature.Locate | script.js:31-38 | a mouse position is the event's own offset; a touch position is the client position minus the pad's viewport origin |
| Signature.Handle | script.js:40-46 | down/start events begin drawing at the pointer and stroke nothing; up/leave/end events stop drawing, keep the last point and stroke nothing; a move strokes exactly when the pad is drawing, from the previous last point to the pointer, which becomes the last point, and an idle move changes nothing |
| Signature.Replay | script.js:40-46 | the listeners run once per event, in order, and each event strokes at most one segment |
| Signature.ReplayDrawingState | script.js:40-46 | after any run of events the pad is drawing exactly when the latest start-or-end event was a start (or, with none, as it was before) |
| Signature.NoStartNoStrokes | script.js:12-13 | from an idle pad, a run of events with no start event strokes nothing and leaves the pad idle |
| Signature.StrokesIffMoveWhileDrawing | script.js:7-30 | a run of events strokes at least one segment exactly when one of its moves arrives while the pad is drawing |
| Signature.DownThenMoveStrokesOnce | script.js:7-26 | pressing at p and moving to q strokes exactly one segment, p to q, and leaves the pad drawing at q |
| Signature.StrokesConnect | script.js:12-23 | within a run without a start event, consecutive strokes join end to start, the first begins at the old last point and the last ends at the new one |
| Signature.ClearPad | script.js:48-51 | after the clear button the pad's canvas is blank and keeps its size, and the recorder is untouched |
| Raster.Pack | script.js:271-274 | a pixel's 32-bit word is below 2^32 and is zero exactly for transparent black |
| Raster.UnpackPack | script.js:271-273 | the packed word determines the pixel: unpacking the word gives back all four channels |
| Raster.AnyNonZero | script.js:274 | `some(color => color !== 0)` holds exactly when some word is non-zero |
| Raster.WordsZeroIffTransparent | script.js:269-275 | the words of a surface are all zero exactly when every pixel is transparent black |
| Raster.IsCanvasBlank | script.js:269-275 | the canvas is blank exactly when every pixel is transparent black |
| Raster.Clear | script.js:50 | `clearRect` over the whole canvas keeps its shape and leaves it blank |
| Raster.ClearIdempotent | script.js:50 | clearing a cleared canvas changes nothing, and a blank canvas is unchanged by clearing |
| Raster.Extract | script.js:128-133 | `getImageData(x, y, w, h)` copied into a w-by-h canvas yields exactly h rows of w pixels, pixel (i, j) from canvas column x+j, row y+i (transparent outside the canvas) |
| Raster.ExtractWhole | script.js:272 | reading back the whole canvas gives the canvas itself |
| Raster.ExtractNested | script.js:128 | extracting from an extraction is the same as one extraction at the combined offset |
| Crop.Normalize | script.js:100-105 | the dragged rectangle's top-left is the coordinate-wise minimum of anchor and pointer, which sit on opposite corners |
| Crop.NormalizeSymmetric | script.js:100-105 | dragging in the opposite direction selects the same rectangle |
| Crop.NormalizeInside | script.js:100-105 | if both drag ends lie on the canvas, so does the whole rectangle |
| Crop.Upload | script.js:63-87 | a decoded upload becomes the uploaded photo, shows the crop section and discards any pending crop, while the drag registers stay as they were; no file changes nothing |
| Crop.MouseDown | script.js:93-96 | mouse-down anchors a new drag and forgets the old rectangle, touching nothing else |
| Crop.MouseMove | script.js:97-105 | without an anchor a move changes nothing; with one it replaces the rectangle by the one spanned from anchor to pointer |
| Crop.MouseUpAsWritten | script.js:122-141 | release without a rectangle or photo only clears the anchor; a zero-size rectangle over a photo throws before anything changes; otherwise the region becomes the pending crop and the anchor clears |
| Crop.DegenerateDragKeepsFollowing | script.js:122-141 | as written, after a vertical drag (10,10)→(10,40) is released, moving to (50,60) still changes the selection, to 40 by 50 at (10,10) |
| Crop.MouseUp | script.js:122-141 | every release clears the anchor; a usable rectangle over a photo makes the pending crop exactly its w-by-h region of the canvas; otherwise the pending crop is kept |
| Crop.MovesAfterReleaseAreInert | script.js:97-98 | after a release, mouse movement changes nothing until the next mouse-down |
| Crop.MouseUpAgreesOffDegenerate | script.js:122-141 | the as-written and the corrected mouse-up agree on every release except a zero-size selection over an uploaded photo |
| Crop.ConfirmCrop | script.js:147-154 | confirm accepts exactly when a crop is pending and then hides the section; otherwise it alerts "Please select and crop your photo." and changes nothing |
| Crop.UploadThenConfirmRejects | script.js:82 | confirming straight after a new upload is always rejected |
| Text.Trim | script.js:184 | the trimmed text is empty exactly when the input is all whitespace, and otherwise neither starts nor ends with whitespace |
| Text.TrimPadded | script.js:184 | trimming whitespace-padded trimmed text gives that text back |
| Text.TrimRepadded | script.js:184 | whitespace put around a trimmed text, even an empty one, is removed again by trimming |
| Text.TrimIdempotent | script.js:184 | trimming twice is trimming once |
| Text.Utf16Length | script.js:197 | `.length` counts UTF-16 code units: between one and two per character, equal to the character count exactly when no character lies above U+FFFF, and twice it exactly when every character does |
| Text.Utf16LengthConcat | script.js:197 | a single character has the length of its code units (two above U+FFFF, else one), and lengths add up over concatenation |
| Text.ToUpper | script.js:165 | the capitalised text has no ASCII lower-case letter, equals the input up to ASCII case, and has the same length |
| Text.ToUpperUnique | script.js:165 | any text with those three properties is exactly the capitalised text |
| Text.ToUpperIdempotent | script.js:165 | capitalising twice is capitalising once |
| Text.NatToString | script.js:363-364 | `String(n)` is a non-empty digit string without leading zero, one digit exactly for n below 10 |
| Text.NatToStringRoundTrip | script.js:363-364 | the decimal text of n reads back as n |
| Text.IntToStringRoundTrip | script.js:365-366 | the decimal text of any integer, sign included, reads back as that integer |
| Text.IntToString | script.js:365-366 | `${yyyy}` is a decimal text that starts with a minus sign exactly for a negative year and has no leading zero |
| Text.PadStart | script.js:363 | `padStart(n, fill)` leaves text of n characters or more alone, otherwise yields n characters ending in the text with fill before it (characters and UTF-16 code units coincide on the decimal texts it receives) |
| Dates.Age | script.js:212 | the computed age is the number of anniversaries reached: the age-th has been reached on `today`, the next has not |
| Dates.AdultIffEighteenthReached | script.js:212-213 | the age is at least 18 exactly when today is on or after the 18th birthday |
| Dates.EighteenthBirthday | script.js:212-213 | on the 18th birthday the age is 18; earlier that year it is 17 |
| Dates.TwoDigits | script.js:363-364 | a day or month is rendered as exactly two digits that read back as its value |
| Dates.FormatDate | script.js:360-367 | the rendered date has the shape "DD. MM. " followed by exactly `String(year)` |
| Dates.FormatDateRoundTrip | script.js:360-367 | reading the rendered date back gives the same year, month and day |
| Dates.FormatDateExampleJanuary | script.js:360-367 | 5 January 2000 renders as "05. 01. 2000" |
| Dates.FormatDateExampleDecember | script.js:360-367 | 31 December 1999 renders as "31. 12. 1999" |
| Card.UpdateCardHtml | script.js:162-179 | the card shows the numbers unchanged, name, sex, district and place capitalised, both dates as text that reads back as the date with the year as `String` writes it, and the photo and signature as given |
| Form.Read | script.js:184-188 | name, district and place are trimmed; the date, sex, crop, signature and date of today are taken as they are |
| Form.Fails | script.js:189-219 | the seven conditions the handler tests, one per alert, on the fields as read |
| Form.MessagesDistinct | script.js:190-220 | each check has its own alert text, distinct even in length from every other |
| Form.MissingFieldMeansBlankInput | script.js:184-192 | the missing-field alert fires exactly when name, district or place is empty or whitespace only, the date is empty, or no sex is chosen |
| Form.UnderageMeansBeforeEighteenth | script.js:209-216 | the age alert fires exactly when today is before the 18th birthday |
| Form.BlankSignatureMeansNoInk | script.js:217-222 | the signature alert fires exactly when every pad pixel is transparent |
| Form.CheckAt | script.js:189-222 | the check at each position of the chain has that position as its rank |
| Form.FirstTrue | script.js:189-222 | the index found is the first true flag, or the length when none is true |
| Form.FirstFailure | script.js:189-222 | the result is the first check in chain order that objects, and none exactly when every check passes |
| Form.RandomDigits | script.js:261-267 | `randomDigits(n)` is n decimal digits, the i-th being the i-th draw |
| Form.Decide | script.js:189-237 | a submission is rejected exactly when some check objects, with the first objecting check in order; on acceptance the record holds the read fields, today as issue date, 8- and 9-digit numbers, the signature and the pending crop |
| Form.Submit | script.js:181-239 | on the raw form, a submission is rejected exactly when some check objects to the trimmed fields, with the first objecting check; on acceptance the record holds the trimmed texts, the chosen date of birth, today, the pending crop and the signature |
| Form.SignatureOnlyInItsCheck | script.js:189-219 | only the last check looks at the signature: changing it changes no other check's verdict |
| Form.OnlyRemainingCheck | script.js:189-222 | when every other check passes, the outcome depends only on the remaining check: accepted iff it passes, rejected with it otherwise |
| Form.NameLimitInclusive | script.js:197-200 | with the other checks passing, a name of 30 code units is accepted and one of 31 is rejected for its length |
| Form.DistrictLimitInclusive | script.js:201-204 | with the other checks passing, a district of 15 code units is accepted and one of 16 is rejected |
| Form.PlaceLimitInclusive | script.js:205-208 | with the other checks passing, a place of 15 code units is accepted and one of 16 is rejected |
| Form.AgeLimitAtBirthday | script.js:209-216 | with the other checks passing, a submission is accepted exactly when today is on or after the 18th birthday |
| Form.NamePaddingIgnored | script.js:184 | whitespace typed around the name changes nothing in the outcome, whitespace-only names included |
| Form.AcceptedCardShowsBoundedFields | script.js:162-239 | an accepted submission shows a card with capped, capitalised fields, 8- and 9-digit numbers and dates that read back as the date of birth and today |
| Page.SubmitPage | script.js:181-239 | a submit on the page is accepted exactly when every check passes on the read fields with the pending crop and the pad's canvas, otherwise refused with the first failing check; acceptance needs a pending crop and ink and records exactly those |
| Page.UploadThenSubmitMissingPhoto | script.js:82 | a submit straight after a new upload is refused, and, with the fields filled, refused for the missing photo |
| Page.ClearThenSubmitBlankSignature | script.js:48-51 | a submit after the clear button is refused, and, when every other check passes, refused for the blank signature |
| Page.ConfirmNotNeeded | script.js:147-154 | pressing confirm does not change the outcome of a submit |
| Page.ReleasedCropIsSubmitted | script.js:122-141 | after a release over a usable selection, with the handler as written, a submit is not refused for the photo, and an accepted card records the released region |

## Left out

- DOM wiring, `preventDefault`, element visibility beyond the crop section, and the
  preview `<img>` updates are not modelled. They are presentation.
- Stroke rasterisation is not modelled. A stroke is reported as a `Segment`, with no
  line width, cap or colour, because anti-aliased canvas drawing is browser-defined.
- The scale-to-cover drawing of the uploaded photo (script.js:72-79 and 108-120) and
  the crop-rectangle outline are not modelled, because they rely on floating-point
  scaling and canvas drawing. Mouse-up reads the crop canvas's pixels, which are
  passed in as a surface. This means the outline is included if it is visible, as in
  the script.
- `FileReader` and `Image` decoding are asynchronous and not modelled. An upload
  arrives as an already-decoded surface, or `None` when no file is chosen.
- `drawIDCard` (script.js:277-359) is not modelled. It is an unused canvas renderer.
- The download button with `html2canvas` (script.js:241-259) is not modelled. It is
  asynchronous I/O through a foreign library.
- `Math.random` is a parameter: the digit draws are passed in. Today's date is also a
  parameter.
- The signature copy (script.js:228-231) is modelled as the signature surface itself.
- Coordinates are integers. Fractional CSS-pixel coordinates are not modelled.
- `touchcancel` is not modelled, because the script does not listen for it. Neither
  is the touch-event branch of the crop canvas, which the script does not have.
- `Dates.Age` and `Dates.FormatDate` assume the browser's time zone is UTC.
  - `new Date("YYYY-MM-DD")` parses as UTC midnight, but `getDate`, `getMonth` and
    `getFullYear` read local time. West of UTC, both the age rule and the rendered
    date see the previous day.
  - `toISOString` gives the issue date in UTC while `today` is local.
  - Time-zone offsets are outside the model. Dates are calendar triples read in one
    time zone.
- `Dates.FormatDate` takes only valid calendar dates. An unparsable date string
  would render as "NaN. NaN. NaN", but the form's date input only yields valid dates
  or the empty string, and the empty string is rejected first.
- `Text.ToUpper` capitalises ASCII letters only. The full Unicode case mapping of
  `toUpperCase`, including characters whose length changes, is not modelled.
- Form.AcceptedCardShowsBoundedFields: the caps on the displayed fields hold only under
  the ASCII-only case mapping of `Text.ToUpper`. The real `toUpperCase` can lengthen a
  text: a name of 30 "ß" passes the 30-unit check at script.js:197 but displays as
  "SS" repeated, 60 code units, at script.js:165. So the program does not keep
  displayed fields within the caps, and the model does not claim it does for
  non-ASCII text.
- Raster.IsCanvasBlank: a canvas with zero width or height counts as blank here. In the
  browser, `getImageData` at script.js:272 throws `IndexSizeError` for it, and the
  submit handler stops with no alert. The signature pad has a fixed non-zero size set in
  the page's markup, so the throw is not modelled.
- Signature.StrokesIffMoveWhileDrawing: strokes are reported as segments and are not
  tied to the pad's pixels or the blank check. A stroked segment may paint nothing on the
  pad, for example a touch stroke wholly outside it, since `touchmove` keeps arriving
  after the finger leaves the pad.
- `Card.UpdateCardHtml` does not model the truthiness guards on photo and signature
  or the `src`/`toDataURL` choice (script.js:171-178). Both images are always present
  once the checks pass.

## Findings

| source | as written | input that shows it | evidently intended | confidence | as-written member | corrected member |
|---|---|---|---|---|---|---|
| script.js:122-141 | mouse-up guards only on `cropRect` being set, then calls `getImageData` with the rectangle's width and height; a zero-width or zero-height selection throws `IndexSizeError`, so `cropStart = null` is never reached | upload a photo, press at (10,10), move to (10,40), release, then move to (50,60) with the button up: the selection still follows the pointer, now 40 by 50 at (10,10) | every release ends the drag; a zero-size selection produces no crop and keeps the pending one | medium, not executed | Crop.MouseUpAsWritten, Crop.DegenerateDragKeepsFollowing | Crop.MouseUp, Crop.MovesAfterReleaseAreInert |
