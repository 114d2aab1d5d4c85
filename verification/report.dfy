/** The report data both renderers read: patient, report identifiers, dates,
    doctors, tests and layout settings. Every property may be missing, so
    each is an `Option`; a present empty string is still falsy. */
module ReportData {
  import opened Values
  import opened Sections

  datatype Patient = Patient(
    fullName: Option<string>,
    ageDisplay: Option<string>,
    genderDisplay: Option<string>,
    referringDoctor: Option<string>)

  datatype ReportInfo = ReportInfo(
    billNumber: Option<string>,
    reportNumber: Option<string>,
    barcode: Option<string>)

  datatype Dates = Dates(
    reportDate: Option<string>,
    reportTime: Option<string>,
    collectionDate: Option<string>)

  /** A signing doctor. `hasSignature` is the flag both footers filter on. */
  datatype Doctor = Doctor(
    name: Option<string>,
    qualification: Option<string>,
    registrationNumber: Option<string>,
    hasSignature: bool,
    signatureUrl: Option<string>,
    signatureBase64: Option<string>)

  /** Layout settings. Heights are millimetres; `endingLineHtml` is written
      by the Puppeteer path only. */
  datatype ReportSettings = ReportSettings(
    headerHeight: Option<int>,
    footerHeight: Option<int>,
    endingLine: Option<string>,
    endingLineFontSize: Option<int>,
    endingLineHtml: Option<string>,
    hasBackground: bool,
    backgroundUrl: Option<string>,
    backgroundBase64: Option<string>)

  datatype Report = Report(
    patient: Option<Patient>,
    report: Option<ReportInfo>,
    dates: Option<Dates>,
    doctors: Option<seq<Doctor>>,
    tests: Option<seq<Test>>,
    reportSettings: Option<ReportSettings>)

  /** `x || []` for an optional list. */
  function ListOr<T>(o: Option<seq<T>>): (r: seq<T>)
    ensures o.Some? ==> r == o.value
    ensures o.None? ==> r == []
  {
    if o.Some? then o.value else []
  }

  /** `reportSettings?.backgroundBase64`: the stored image, when there are
      settings at all. */
  function StoredBackground(d: Report): (r: Option<string>)
    ensures d.reportSettings.None? ==> r.None?
    ensures d.reportSettings.Some? ==> r == d.reportSettings.value.backgroundBase64
  {
    if d.reportSettings.Some? then d.reportSettings.value.backgroundBase64 else None
  }

  /** `reportSettings?.<property>` for the layout settings:
      `None` when the settings or the property are missing. */
  function HeaderHeightSetting(d: Report): Option<int> {
    if d.reportSettings.Some? then d.reportSettings.value.headerHeight else None
  }

  function FooterHeightSetting(d: Report): Option<int> {
    if d.reportSettings.Some? then d.reportSettings.value.footerHeight else None
  }

  function EndingLineSetting(d: Report): Option<string> {
    if d.reportSettings.Some? then d.reportSettings.value.endingLine else None
  }

  function EndingFontSizeSetting(d: Report): Option<int> {
    if d.reportSettings.Some? then d.reportSettings.value.endingLineFontSize else None
  }
}
