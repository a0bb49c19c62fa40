/** The submit handler: the fields are read (name, district and place trimmed), then an
    ordered chain of checks over them, the pending crop, the signature pad and today's date
    ends either in the first failing check's alert or in a fresh card record with newly
    drawn ID and serial numbers. */
module Form {
  import opened Common
  import opened Text
  import opened Raster
  import opened Dates
  import opened Card

  /** The raw form fields. `dob` is `None` when the date input is empty; `sex` is the
      select's value, `""` when nothing is chosen. */
  datatype FormInput = FormInput(
    name: string,
    dob: Option<CalendarDate>,
    sex: string,
    district: string,
    place: string)

  /** Everything the handler reads: the form, `croppedPhoto`, the signature canvas and
      today's date. */
  datatype Submission = Submission(
    form: FormInput,
    photo: Option<Surface>,
    signature: Surface,
    today: CalendarDate)

  /** A submission as the handler sees it after reading the fields. */
  datatype Reading = Reading(
    name: string,
    dob: Option<CalendarDate>,
    sex: string,
    district: string,
    place: string,
    photo: Option<Surface>,
    signature: Surface,
    today: CalendarDate)

  /** The first lines of the handler: name, district and place are trimmed; the date and
      the sex select are taken as they are. */
  function Read(sub: Submission): (r: Reading)
    ensures r.name == Trim(sub.form.name) && r.district == Trim(sub.form.district)
    ensures r.place == Trim(sub.form.place)
    ensures r.dob == sub.form.dob && r.sex == sub.form.sex && r.photo == sub.photo
    ensures r.signature == sub.signature && r.today == sub.today
  {
    var f := sub.form;
    Reading(Trim(f.name), f.dob, f.sex, Trim(f.district), Trim(f.place), sub.photo, sub.signature, sub.today)
  }

  /** One alert per check, in the order the handler makes them. */
  datatype SubmitError =
    | MissingField | MissingPhoto | NameTooLong | DistrictTooLong | PlaceTooLong
    | Underage | BlankSignature

  function Message(e: SubmitError): string {
    match e
    case MissingField => "Please fill all fields."
    case MissingPhoto => "Please upload and crop your photo."
    case NameTooLong => "Full Name must be at most 30 letters."
    case DistrictTooLong => "District of Birth must be at most 15 letters."
    case PlaceTooLong => "Place of Issue must be at most 15 letters."
    case Underage => "User must be at least 18 years old."
    case BlankSignature => "Please draw your signature."
  }

  /** Every check has its own alert, of its own length even, so the alert tells which check
      stopped the form. */
  lemma MessagesDistinct(e: SubmitError, e': SubmitError)
    ensures e != e' ==> |Message(e)| != |Message(e')| && Message(e) != Message(e')
  {
    MessageLength(e);
    MessageLength(e');
  }

  /** The alert lengths, one per check. */
  function AlertLength(e: SubmitError): nat {
    match e
    case MissingField => 23
    case MissingPhoto => 34
    case NameTooLong => 37
    case DistrictTooLong => 45
    case PlaceTooLong => 42
    case Underage => 35
    case BlankSignature => 27
  }

  lemma MessageLength(e: SubmitError)
    ensures |Message(e)| == AlertLength(e)
  {
  }

  const MaxNameLength := 30
  const MaxDistrictLength := 15
  const MaxPlaceLength := 15
  const CheckCount := 7
  const IdNumberLength := 8
  const SerialNumberLength := 9

  /** Position of each check in the chain. */
  function Rank(e: SubmitError): (k: nat)
    ensures k < CheckCount
  {
    match e
    case MissingField => 0
    case MissingPhoto => 1
    case NameTooLong => 2
    case DistrictTooLong => 3
    case PlaceTooLong => 4
    case Underage => 5
    case BlankSignature => 6
  }

  /** The check at position `k` of the chain. */
  function CheckAt(k: nat): (e: SubmitError)
    requires k < CheckCount
    ensures Rank(e) == k
  {
    [MissingField, MissingPhoto, NameTooLong, DistrictTooLong, PlaceTooLong, Underage, BlankSignature][k]
  }

  /** Positions identify checks: `CheckAt` undoes `Rank`. */
  lemma CheckAtRank(e: SubmitError)
    ensures CheckAt(Rank(e)) == e
  {
  }

  /** Whether check `e`, as the handler computes it, objects to the reading. */
  predicate Fails(e: SubmitError, r: Reading) {
    match e
    case MissingField => r.name == "" || r.dob.None? || r.sex == "" || r.district == "" || r.place == ""
    case MissingPhoto => r.photo.None?
    case NameTooLong => Utf16Length(r.name) > MaxNameLength
    case DistrictTooLong => Utf16Length(r.district) > MaxDistrictLength
    case PlaceTooLong => Utf16Length(r.place) > MaxPlaceLength
    case Underage => r.dob.Some? && Age(r.today, r.dob.value) < AdultAge
    case BlankSignature => IsCanvasBlank(r.signature)
  }

  /** A field counts as missing when it is empty or only whitespace; the sex select counts
      as missing only when empty, since it is not trimmed. */
  lemma MissingFieldMeansBlankInput(sub: Submission)
    ensures var f := sub.form; Fails(MissingField, Read(sub)) <==>
      || AllWhitespace(f.name) || f.dob.None? || |f.sex| == 0
      || AllWhitespace(f.district) || AllWhitespace(f.place)
  {
  }

  /** The age check objects exactly when today is before the 18th birthday. */
  lemma UnderageMeansBeforeEighteenth(r: Reading)
    requires r.dob.Some?
    ensures Fails(Underage, r) <==> Before(r.today, Anniversary(r.dob.value, AdultAge))
  {
    AdultIffEighteenthReached(r.today, r.dob.value);
  }

  /** The signature check objects exactly when every pixel of the pad is transparent. */
  lemma BlankSignatureMeansNoInk(r: Reading)
    ensures Fails(BlankSignature, r) <==> AllTransparent(r.signature)
  {
  }

  /** Index of the first `true` flag, or `|flags|` when there is none. */
  function FirstTrue(flags: seq<bool>): (k: nat)
    ensures k <= |flags|
    ensures k < |flags| ==> flags[k]
    ensures forall j :: 0 <= j < k ==> !flags[j]
  {
    if |flags| == 0 then 0
    else if flags[0] then 0
    else 1 + FirstTrue(flags[1..])
  }

  /** The outcome of each check, in chain order. */
  function CheckFlags(r: Reading): (flags: seq<bool>)
    ensures |flags| == CheckCount
  {
    seq(CheckCount, k requires 0 <= k < CheckCount => Fails(CheckAt(k), r))
  }

  lemma CheckFlagsAtRank(r: Reading)
    ensures forall e :: CheckFlags(r)[Rank(e)] == Fails(e, r)
  {
    forall e
      ensures CheckFlags(r)[Rank(e)] == Fails(e, r)
    {
      CheckAtRank(e);
    }
  }

  /** The chain of checks in `form.onsubmit`: the result names the first check, in the
      fixed order, that objects, and is `None` exactly when none does. */
  function FirstFailure(r: Reading): (res: Option<SubmitError>)
    ensures res.Some? ==> Fails(res.value, r)
    ensures res.Some? ==> forall e :: Rank(e) < Rank(res.value) ==> !Fails(e, r)
    ensures res.None? <==> forall e :: !Fails(e, r)
  {
    var flags := CheckFlags(r);
    var k := FirstTrue(flags);
    CheckFlagsAtRank(r);
    if k < CheckCount then Some(CheckAt(k)) else None
  }

  /** The checks other than `e` pass. */
  predicate OthersPass(e: SubmitError, r: Reading) {
    forall e' :: e' != e ==> !Fails(e', r)
  }

  /** The signature is looked at by its own check alone. */
  lemma SignatureOnlyInItsCheck(r: Reading, sig: Surface)
    ensures forall e :: e != BlankSignature ==> Fails(e, r.(signature := sig)) == Fails(e, r)
    ensures OthersPass(BlankSignature, r) ==> OthersPass(BlankSignature, r.(signature := sig))
  {
    forall e | e != BlankSignature
      ensures Fails(e, r.(signature := sig)) == Fails(e, r)
    {
    }
  }

  /** What a reading that passes every check is known to satisfy. */
  lemma PassedChecks(r: Reading)
    requires forall e :: !Fails(e, r)
    ensures r.dob.Some? && r.photo.Some? && r.sex != "" && r.name != ""
    ensures Utf16Length(r.name) <= MaxNameLength
    ensures Utf16Length(r.district) <= MaxDistrictLength
    ensures Utf16Length(r.place) <= MaxPlaceLength
    ensures Age(r.today, r.dob.value) >= AdultAge
    ensures !IsCanvasBlank(r.signature)
  {
    assert !Fails(MissingField, r) && !Fails(MissingPhoto, r);
    assert !Fails(NameTooLong, r) && !Fails(DistrictTooLong, r) && !Fails(PlaceTooLong, r);
    assert !Fails(Underage, r) && !Fails(BlankSignature, r);
  }

  /** `randomDigits(n)` with the `n` values `Math.floor(Math.random() * 10)` produced:
      one decimal digit per draw, in order. */
  function RandomDigits(draws: seq<Digit>): (s: string)
    ensures |s| == |draws| && AllDigits(s)
    ensures forall i :: 0 <= i < |s| ==> DigitValue(s[i]) == draws[i]
  {
    if |draws| == 0 then "" else RandomDigits(draws[..|draws| - 1]) + [DigitChar(draws[|draws| - 1])]
  }

  /** `form.onsubmit` after the fields are read: the first failing check's error, or, when
      no check fails, a record of the read fields, today's date as the issue date, numbers
      drawn from `idDraws` and `serialDraws`, the signature and the pending crop. No record
      is made on failure. */
  function Decide(r: Reading, idDraws: seq<Digit>, serialDraws: seq<Digit>): (res: Result<CardRecord, SubmitError>)
    requires |idDraws| == IdNumberLength && |serialDraws| == SerialNumberLength
    ensures res.Failure? <==> exists e :: Fails(e, r)
    ensures res.Failure? ==> Fails(res.error, r) && forall e :: Rank(e) < Rank(res.error) ==> !Fails(e, r)
    ensures res.Success? ==>
      var rec := res.value;
      && rec.name == r.name && Utf16Length(rec.name) <= MaxNameLength
      && rec.district == r.district && Utf16Length(rec.district) <= MaxDistrictLength
      && rec.place == r.place && Utf16Length(rec.place) <= MaxPlaceLength
      && rec.sex == r.sex && Some(rec.dob) == r.dob
      && Age(r.today, rec.dob) >= AdultAge && rec.dateOfIssue == r.today
      && |rec.idNumber| == IdNumberLength && AllDigits(rec.idNumber)
      && |rec.serialNumber| == SerialNumberLength && AllDigits(rec.serialNumber)
      && Some(rec.photo) == r.photo && rec.signature == r.signature
      && !IsCanvasBlank(rec.signature)
  {
    match FirstFailure(r)
    case Some(e) => Failure(e)
    case None =>
      PassedChecks(r);
      Success(CardRecord(
        r.name, r.dob.value, r.sex, r.district, r.place, r.today,
        RandomDigits(idDraws), RandomDigits(serialDraws), r.signature, r.photo.value))
  }

  /** The whole submit handler on the raw form: rejected exactly when some check objects to
      the fields as read (name, district and place trimmed), with the first objecting check;
      accepted otherwise, recording the trimmed texts, the chosen date of birth, today, the
      pending crop and the signature. */
  function Submit(sub: Submission, idDraws: seq<Digit>, serialDraws: seq<Digit>): (res: Result<CardRecord, SubmitError>)
    requires |idDraws| == IdNumberLength && |serialDraws| == SerialNumberLength
    ensures res.Failure? <==> exists e :: Fails(e, Read(sub))
    ensures res.Success? <==> forall e :: !Fails(e, Read(sub))
    ensures res.Failure? ==> Fails(res.error, Read(sub)) && forall e :: Rank(e) < Rank(res.error) ==> !Fails(e, Read(sub))
    ensures res.Success? ==>
      var rec := res.value;
      && rec.name == Trim(sub.form.name) && rec.district == Trim(sub.form.district)
      && rec.place == Trim(sub.form.place) && rec.sex == sub.form.sex
      && Some(rec.dob) == sub.form.dob && rec.dateOfIssue == sub.today
      && Some(rec.photo) == sub.photo && rec.signature == sub.signature
  {
    Decide(Read(sub), idDraws, serialDraws)
  }

  /** When every check but `e` passes, the outcome depends on `e` alone: accepted when it
      passes, rejected with `e` when it fails. */
  lemma OnlyRemainingCheck(r: Reading, e: SubmitError, idDraws: seq<Digit>, serialDraws: seq<Digit>)
    requires |idDraws| == IdNumberLength && |serialDraws| == SerialNumberLength
    requires OthersPass(e, r)
    ensures Decide(r, idDraws, serialDraws).Success? <==> !Fails(e, r)
    ensures Fails(e, r) ==> Decide(r, idDraws, serialDraws) == Failure(e)
  {
    var res := Decide(r, idDraws, serialDraws);
    if res.Failure? {
      assert Fails(res.error, r);
    }
  }

  /** With every check but the name-length one passing, a (trimmed) name of 30 UTF-16 code
      units is accepted and one of 31 is rejected for its length. */
  lemma NameLimitInclusive(r: Reading, idDraws: seq<Digit>, serialDraws: seq<Digit>)
    requires |idDraws| == IdNumberLength && |serialDraws| == SerialNumberLength
    requires OthersPass(NameTooLong, r)
    ensures Utf16Length(r.name) == 30 ==> Decide(r, idDraws, serialDraws).Success?
    ensures Utf16Length(r.name) == 31 ==> Decide(r, idDraws, serialDraws) == Failure(NameTooLong)
  {
    OnlyRemainingCheck(r, NameTooLong, idDraws, serialDraws);
  }

  /** As above for the district: 15 UTF-16 code units accepted, 16 rejected. */
  lemma DistrictLimitInclusive(r: Reading, idDraws: seq<Digit>, serialDraws: seq<Digit>)
    requires |idDraws| == IdNumberLength && |serialDraws| == SerialNumberLength
    requires OthersPass(DistrictTooLong, r)
    ensures Utf16Length(r.district) == 15 ==> Decide(r, idDraws, serialDraws).Success?
    ensures Utf16Length(r.district) == 16 ==> Decide(r, idDraws, serialDraws) == Failure(DistrictTooLong)
  {
    OnlyRemainingCheck(r, DistrictTooLong, idDraws, serialDraws);
  }

  /** As above for the place of issue: 15 UTF-16 code units accepted, 16 rejected. */
  lemma PlaceLimitInclusive(r: Reading, idDraws: seq<Digit>, serialDraws: seq<Digit>)
    requires |idDraws| == IdNumberLength && |serialDraws| == SerialNumberLength
    requires OthersPass(PlaceTooLong, r)
    ensures Utf16Length(r.place) == 15 ==> Decide(r, idDraws, serialDraws).Success?
    ensures Utf16Length(r.place) == 16 ==> Decide(r, idDraws, serialDraws) == Failure(PlaceTooLong)
  {
    OnlyRemainingCheck(r, PlaceTooLong, idDraws, serialDraws);
  }

  /** With every other check passing, the date of birth is accepted exactly when today is on
      or after the 18th birthday. */
  lemma AgeLimitAtBirthday(r: Reading, idDraws: seq<Digit>, serialDraws: seq<Digit>)
    requires |idDraws| == IdNumberLength && |serialDraws| == SerialNumberLength
    requires OthersPass(Underage, r) && r.dob.Some?
    ensures Decide(r, idDraws, serialDraws).Success? <==> !Before(r.today, Anniversary(r.dob.value, AdultAge))
  {
    UnderageMeansBeforeEighteenth(r);
    OnlyRemainingCheck(r, Underage, idDraws, serialDraws);
  }

  /** Whitespace typed around the name does not change the outcome: the name is trimmed
      before every check and before it is recorded. */
  lemma NamePaddingIgnored(sub: Submission, a: string, b: string, idDraws: seq<Digit>, serialDraws: seq<Digit>)
    requires |idDraws| == IdNumberLength && |serialDraws| == SerialNumberLength
    requires AllWhitespace(a) && AllWhitespace(b)
    ensures var padded := sub.(form := sub.form.(name := a + Trim(sub.form.name) + b));
      Submit(padded, idDraws, serialDraws) == Submit(sub, idDraws, serialDraws)
  {
    var padded := sub.(form := sub.form.(name := a + Trim(sub.form.name) + b));
    TrimRepadded(a, sub.form.name, b);
    assert Read(padded) == Read(sub);
  }

  /** A successful submission shows a card whose name, district and place respect their
      caps, in capitals, with both dates readable back and numbers of 8 and 9 digits. */
  lemma AcceptedCardShowsBoundedFields(sub: Submission, idDraws: seq<Digit>, serialDraws: seq<Digit>)
    requires |idDraws| == IdNumberLength && |serialDraws| == SerialNumberLength
    ensures Submit(sub, idDraws, serialDraws).Success? ==>
      var v := UpdateCardHtml(Submit(sub, idDraws, serialDraws).value);
      && Utf16Length(v.fullName) <= MaxNameLength && NoAsciiLower(v.fullName)
      && Utf16Length(v.district) <= MaxDistrictLength && Utf16Length(v.place) <= MaxPlaceLength
      && |v.idNumber| == IdNumberLength && AllDigits(v.idNumber)
      && |v.serialNumber| == SerialNumberLength && AllDigits(v.serialNumber)
      && ShownDate(v.dob, sub.form.dob.value) && ShownDate(v.issueDate, sub.today)
  {
  }
}
