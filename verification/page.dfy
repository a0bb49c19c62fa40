/** The page as one state: the signature pad and the crop selector, which the submit
    handler reads through `croppedPhoto` and the signature canvas. */
module Page {
  import opened Common
  import opened Text
  import opened Raster
  import opened Signature
  import opened Crop
  import opened Dates
  import opened Card
  import opened Form

  datatype PageState = PageState(pad: Pad, crop: CropState)

  /** What a press of the submit button reads: the typed form, the pending crop, the
      signature canvas and today's date. */
  function SubmissionOf(p: PageState, form: FormInput, today: CalendarDate): (sub: Submission)
    ensures sub.photo == p.crop.cropped && sub.signature == p.pad.ink
    ensures sub.form == form && sub.today == today
  {
    Submission(form, p.crop.cropped, p.pad.ink, today)
  }

  /** Pressing submit on the page: accepted exactly when every check passes on the fields as
      read with the pending crop and the pad's canvas, otherwise refused with the first
      failing check. Acceptance needs a pending crop and ink on the pad, and the record takes
      exactly those; whether the crop was confirmed plays no part. */
  function SubmitPage(p: PageState, form: FormInput, today: CalendarDate, idDraws: seq<Digit>, serialDraws: seq<Digit>)
    : (res: Result<CardRecord, SubmitError>)
    requires |idDraws| == IdNumberLength && |serialDraws| == SerialNumberLength
    ensures res.Success? ==> p.crop.cropped.Some? && !IsCanvasBlank(p.pad.ink)
    ensures res.Success? ==> Some(res.value.photo) == p.crop.cropped && res.value.signature == p.pad.ink
    ensures p.crop.cropped.None? ==> res.Failure?
    ensures IsCanvasBlank(p.pad.ink) ==> res.Failure?
    ensures var r := Read(SubmissionOf(p, form, today));
      && (res.Success? <==> forall e :: !Fails(e, r))
      && (res.Failure? ==> Fails(res.error, r) && forall e :: Rank(e) < Rank(res.error) ==> !Fails(e, r))
  {
    var sub := SubmissionOf(p, form, today);
    PhotoAndSignatureChecks(Read(sub));
    Submit(sub, idDraws, serialDraws)
  }

  /** The photo check and the signature check look only at the pending crop and the canvas. */
  lemma PhotoAndSignatureChecks(r: Reading)
    ensures Fails(MissingPhoto, r) <==> r.photo.None?
    ensures Fails(BlankSignature, r) <==> IsCanvasBlank(r.signature)
  {
  }

  /** Every text field has something besides whitespace, a date is chosen and so is a sex:
      the first check passes. */
  predicate FieldsFilled(form: FormInput) {
    && !AllWhitespace(form.name) && form.dob.Some? && form.sex != ""
    && !AllWhitespace(form.district) && !AllWhitespace(form.place)
  }

  /** A new upload discards the pending crop, so a submit straight afterwards is refused,
      and, once the fields are filled, refused for the missing photo. */
  lemma UploadThenSubmitMissingPhoto(
    p: PageState, photo: Surface, form: FormInput, today: CalendarDate,
    idDraws: seq<Digit>, serialDraws: seq<Digit>)
    requires |idDraws| == IdNumberLength && |serialDraws| == SerialNumberLength
    ensures var q := p.(crop := Upload(p.crop, Some(photo)));
      && SubmitPage(q, form, today, idDraws, serialDraws).Failure?
      && (FieldsFilled(form) ==> SubmitPage(q, form, today, idDraws, serialDraws) == Failure(MissingPhoto))
  {
    var q := p.(crop := Upload(p.crop, Some(photo)));
    var sub := SubmissionOf(q, form, today);
    var res := SubmitPage(q, form, today, idDraws, serialDraws);
    if FieldsFilled(form) {
      MissingFieldMeansBlankInput(sub);
      assert !Fails(MissingField, Read(sub));
      assert Fails(MissingPhoto, Read(sub));
      assert Rank(res.error) <= Rank(MissingPhoto);
    }
  }

  /** After the clear button a submit is refused, and when every other check passes it is
      refused for the blank signature. */
  lemma ClearThenSubmitBlankSignature(
    p: PageState, form: FormInput, today: CalendarDate,
    idDraws: seq<Digit>, serialDraws: seq<Digit>)
    requires |idDraws| == IdNumberLength && |serialDraws| == SerialNumberLength
    ensures var q := p.(pad := ClearPad(p.pad));
      && SubmitPage(q, form, today, idDraws, serialDraws).Failure?
      && (OthersPass(BlankSignature, Read(SubmissionOf(p, form, today))) ==>
            SubmitPage(q, form, today, idDraws, serialDraws) == Failure(BlankSignature))
  {
    var q := p.(pad := ClearPad(p.pad));
    var r := Read(SubmissionOf(p, form, today));
    var r' := Read(SubmissionOf(q, form, today));
    if OthersPass(BlankSignature, r) {
      assert r' == r.(signature := q.pad.ink);
      SignatureOnlyInItsCheck(r, q.pad.ink);
      OnlyRemainingCheck(r', BlankSignature, idDraws, serialDraws);
    }
  }

  /** Confirming the crop changes nothing a submit reads: the outcome is the same with or
      without pressing the confirm button. */
  lemma ConfirmNotNeeded(
    p: PageState, form: FormInput, today: CalendarDate,
    idDraws: seq<Digit>, serialDraws: seq<Digit>)
    requires |idDraws| == IdNumberLength && |serialDraws| == SerialNumberLength
    ensures SubmitPage(p.(crop := ConfirmCrop(p.crop).state), form, today, idDraws, serialDraws)
         == SubmitPage(p, form, today, idDraws, serialDraws)
  {
    assert SubmissionOf(p.(crop := ConfirmCrop(p.crop).state), form, today) == SubmissionOf(p, form, today);
  }

  /** Releasing the mouse over a usable selection, with the handler as written, is enough
      for the photo check: the released region itself is what a submit then records as the
      photo. */
  lemma ReleasedCropIsSubmitted(
    p: PageState, canvas: Surface, form: FormInput, today: CalendarDate,
    idDraws: seq<Digit>, serialDraws: seq<Digit>)
    requires |idDraws| == IdNumberLength && |serialDraws| == SerialNumberLength
    requires p.crop.cropRect.Some? && p.crop.uploaded.Some? && !Degenerate(p.crop.cropRect.value)
    ensures var q := p.(crop := MouseUpAsWritten(p.crop, canvas));
      var res := SubmitPage(q, form, today, idDraws, serialDraws);
      && (res.Failure? ==> res.error != MissingPhoto)
      && (res.Success? ==> res.value.photo == Extract(canvas, p.crop.cropRect.value))
  {
    var q := p.(crop := MouseUpAsWritten(p.crop, canvas));
    assert q.crop.cropped == Some(Extract(canvas, p.crop.cropRect.value));
    assert !Fails(MissingPhoto, Read(SubmissionOf(q, form, today)));
  }
}
