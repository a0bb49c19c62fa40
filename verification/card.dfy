/** The card record assembled on submission and the text the HTML card shows for it. */
module Card {
  import opened Text
  import opened Raster
  import opened Dates

  /** Everything `updateIDCardHtml` receives. */
  datatype CardRecord = CardRecord(
    name: string,
    dob: CalendarDate,
    sex: string,
    district: string,
    place: string,
    dateOfIssue: CalendarDate,
    idNumber: string,
    serialNumber: string,
    signature: Surface,
    photo: Surface)

  /** The text and image contents of the card's HTML elements. */
  datatype CardView = CardView(
    serialNumber: string,
    idNumber: string,
    fullName: string,
    dob: string,
    sex: string,
    district: string,
    place: string,
    issueDate: string,
    photo: Surface,
    signature: Surface)

  /** `shown` is `text` in capitals: the same text up to ASCII case and the same
      JavaScript length, with no lower-case ASCII letter. */
  predicate ShownUpper(shown: string, text: string) {
    SameIgnoringCase(shown, text) && NoAsciiLower(shown) && Utf16Length(shown) == Utf16Length(text)
  }

  /** `shown` is a rendered card date that reads back as `d`, its year written as `String`
      writes it (no leading zeros). */
  predicate ShownDate(shown: string, d: Date) {
    IsCardDate(shown) && ParseCardDate(shown) == d && shown[8..] == IntToString(d.year)
  }

  /** `updateIDCardHtml`: serial and ID numbers are shown as they are, the name, sex,
      district and place in capitals, both dates as `DD. MM. YYYY`, and the photo and
      signature images as given. */
  function UpdateCardHtml(rec: CardRecord): (v: CardView)
    ensures v.serialNumber == rec.serialNumber && v.idNumber == rec.idNumber
    ensures ShownUpper(v.fullName, rec.name) && ShownUpper(v.sex, rec.sex)
    ensures ShownUpper(v.district, rec.district) && ShownUpper(v.place, rec.place)
    ensures ShownDate(v.dob, rec.dob) && ShownDate(v.issueDate, rec.dateOfIssue)
    ensures v.photo == rec.photo && v.signature == rec.signature
  {
    FormatDateRoundTrip(rec.dob);
    FormatDateRoundTrip(rec.dateOfIssue);
    CardView(
      rec.serialNumber,
      rec.idNumber,
      ToUpper(rec.name),
      FormatDate(rec.dob),
      ToUpper(rec.sex),
      ToUpper(rec.district),
      ToUpper(rec.place),
      FormatDate(rec.dateOfIssue),
      rec.photo,
      rec.signature)
  }
}
