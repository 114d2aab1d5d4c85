/** The React-PDF document (`Report1Template`, `Header`, `Footer`): one A4
    page holding an optional fixed background image, a fixed header band, a
    fixed footer band and the flowing content, which reserves the bands'
    heights with spacers. */
module Document {
  import opened Strings
  import opened Values
  import opened Sections
  import opened ReportData

  const DefaultHeaderHeight := 80
  const DefaultFooterHeight := 60
  const DefaultEndingFontSize := 12

  /** One `label : value` line of the header. */
  datatype InfoRow = InfoRow(caption: string, value: string)

  /** The header band: patient column, report column, optional QR code. */
  datatype HeaderView = HeaderView(
    height: int,
    patientColumn: seq<InfoRow>,
    reportColumn: seq<InfoRow>,
    qrCode: Option<string>)

  /** One doctor's signature block in the footer. */
  datatype Signature = Signature(
    image: Option<string>,
    name: string,
    qualification: Option<string>,
    registration: Option<string>)

  datatype FooterView = FooterView(height: int, signatures: seq<Signature>)

  datatype EndingView = EndingView(text: string, fontSize: int)

  /** The children of the content wrapper, in order. */
  datatype ContentChild =
    | HeaderSpacer(height: int)
    | MainContent(sections: seq<seq<Child>>, ending: Option<EndingView>)
    | FooterSpacer(height: int)

  /** The children of the page, in order. */
  datatype PageChild =
    | BackgroundImage(src: string)
    | HeaderBand(header: HeaderView)
    | FooterBand(footer: FooterView)
    | ContentWrapper(children: seq<ContentChild>)

  // ---------------------------------------------------------------------
  // Header.
  // ---------------------------------------------------------------------

  /** `Header`: seven fixed captions. A missing `fullName`, `billNumber` or
      `reportNumber` shows as nothing; a missing age, gender or report date
      is turned into the text `undefined` by string concatenation; the
      referring doctor, the report time and the registration date fall back
      to the empty string. The QR code is drawn iff `barcode` is truthy. */
  function HeaderOf(p: Patient, r: ReportInfo, d: Dates, height: int): (v: HeaderView)
    ensures v.height == height
    ensures |v.patientColumn| == 4 && |v.reportColumn| == 3
    ensures v.patientColumn[0] == InfoRow("Name", TextOf(p.fullName))
    ensures v.patientColumn[1] == InfoRow("Age/Gender", Concat(p.ageDisplay) + " / " + Concat(p.genderDisplay))
    ensures v.patientColumn[2] == InfoRow("Referred By", StrOr(p.referringDoctor, ""))
    ensures v.patientColumn[3] == InfoRow("Patient ID", TextOf(r.billNumber))
    ensures v.reportColumn[0] == InfoRow("Report ID", TextOf(r.reportNumber))
    ensures v.reportColumn[1] == InfoRow("Report Date", Concat(d.reportDate) + " " + StrOr(d.reportTime, ""))
    ensures v.reportColumn[2] == InfoRow("Reg. Date", StrOr(d.collectionDate, ""))
    ensures v.qrCode.Some? <==> TruthyStr(r.barcode)
    ensures v.qrCode.Some? ==> v.qrCode.value == r.barcode.value
  {
    HeaderView(
      height,
      [ InfoRow("Name", TextOf(p.fullName)),
        InfoRow("Age/Gender", Concat(p.ageDisplay) + " / " + Concat(p.genderDisplay)),
        InfoRow("Referred By", StrOr(p.referringDoctor, "")),
        InfoRow("Patient ID", TextOf(r.billNumber)) ],
      [ InfoRow("Report ID", TextOf(r.reportNumber)),
        InfoRow("Report Date", Concat(d.reportDate) + " " + StrOr(d.reportTime, "")),
        InfoRow("Reg. Date", StrOr(d.collectionDate, "")) ],
      if TruthyStr(r.barcode) then Some(r.barcode.value) else None)
  }

  // ---------------------------------------------------------------------
  // Footer.
  // ---------------------------------------------------------------------

  /** `doctors.filter(doc => doc.hasSignature)`. */
  function Signed(ds: seq<Doctor>): (r: seq<Doctor>)
    ensures |r| <= |ds|
    ensures forall x :: x in r <==> x in ds && x.hasSignature
    decreases |ds|
  {
    if ds == [] then []
    else
      var rest := Signed(ds[1..]);
      assert forall x :: x in ds <==> x == ds[0] || x in ds[1..];
      if ds[0].hasSignature then [ds[0]] + rest else rest
  }

  /** Filtering distributes over concatenation, so the signatures keep the
      order of the doctors list. */
  lemma {:induction false} SignedAppend(a: seq<Doctor>, b: seq<Doctor>)
    ensures Signed(a + b) == Signed(a) + Signed(b)
    decreases |a|
  {
    if a == [] {
      assert a + b == b;
    } else {
      assert (a + b)[0] == a[0] && (a + b)[1..] == a[1..] + b;
      SignedAppend(a[1..], b);
    }
  }

  /** The qualification line: every line break becomes `, `. */
  function QualificationText(q: string): (r: string)
    ensures '\n' !in r
    ensures '\n' !in q ==> r == q
  {
    ReplaceChar(q, '\n', ", ")
  }

  /** A qualification written one degree per line is shown as the degrees
      separated by commas. */
  lemma QualificationLines(lines: seq<string>)
    requires forall i :: 0 <= i < |lines| ==> '\n' !in lines[i]
    ensures QualificationText(Join(lines, "\n")) == Join(lines, ", ")
  {
    ReplaceCharJoin(lines, '\n', ", ");
  }

  /** One signature block: the image iff `signatureBase64` is truthy, the
      name, the qualification iff truthy, and `Reg: ` plus the number iff
      the registration number is truthy. */
  function SignatureOf(doc: Doctor): (s: Signature)
    ensures s.image.Some? <==> TruthyStr(doc.signatureBase64)
    ensures s.image.Some? ==> s.image.value == doc.signatureBase64.value
    ensures s.qualification.Some? <==> TruthyStr(doc.qualification)
    ensures s.qualification.Some? ==> s.qualification.value == QualificationText(doc.qualification.value)
    ensures s.qualification.Some? ==> '\n' !in s.qualification.value
    ensures s.registration.Some? <==> TruthyStr(doc.registrationNumber)
    ensures s.registration.Some? ==> s.registration.value == "Reg: " + doc.registrationNumber.value
    ensures s.name == TextOf(doc.name)
  {
    Signature(
      if TruthyStr(doc.signatureBase64) then Some(doc.signatureBase64.value) else None,
      TextOf(doc.name),
      if TruthyStr(doc.qualification) then Some(QualificationText(doc.qualification.value)) else None,
      if TruthyStr(doc.registrationNumber) then Some("Reg: " + doc.registrationNumber.value) else None)
  }

  function SignaturesOf(ds: seq<Doctor>): (r: seq<Signature>)
    ensures |r| == |ds|
    ensures forall i :: 0 <= i < |ds| ==> r[i] == SignatureOf(ds[i])
  {
    seq(|ds|, i requires 0 <= i < |ds| => SignatureOf(ds[i]))
  }

  /** `Footer`: one block per doctor with `hasSignature`, in list order. */
  function FooterOf(doctors: seq<Doctor>, height: int): (v: FooterView)
    ensures v.height == height
    ensures |v.signatures| == |Signed(doctors)|
    ensures forall i :: 0 <= i < |v.signatures| ==> v.signatures[i] == SignatureOf(Signed(doctors)[i])
  {
    FooterView(height, SignaturesOf(Signed(doctors)))
  }

  /** A doctor gets a block exactly when the flag is set. */
  lemma FooterMembership(doctors: seq<Doctor>, height: int, doc: Doctor)
    ensures doc in doctors && doc.hasSignature ==> SignatureOf(doc) in FooterOf(doctors, height).signatures
    ensures (forall x :: x in doctors ==> !x.hasSignature) ==> FooterOf(doctors, height).signatures == []
  {
    var v := FooterOf(doctors, height);
    if doc in doctors && doc.hasSignature {
      var k :| 0 <= k < |Signed(doctors)| && Signed(doctors)[k] == doc;
      assert v.signatures[k] == SignatureOf(doc);
    }
    if forall x :: x in doctors ==> !x.hasSignature {
      if Signed(doctors) != [] {
        assert Signed(doctors)[0] in Signed(doctors);
      }
    }
  }

  // ---------------------------------------------------------------------
  // The document.
  // ---------------------------------------------------------------------

  /** The sections of the main content, one per test, in order. */
  function SectionsOf(tests: seq<Test>): (r: seq<seq<Child>>)
    ensures |r| == |tests|
    ensures forall i :: 0 <= i < |tests| ==> r[i] == SectionChildren(tests[i])
  {
    seq(|tests|, i requires 0 <= i < |tests| => SectionChildren(tests[i]))
  }

  /** The ending line: present iff its text is truthy, sized by the setting
      or 12. Line breaks in it are left to the `Text` element. */
  function EndingOf(d: Report): (r: Option<EndingView>)
    ensures r.Some? <==> TruthyStr(EndingLineSetting(d))
    ensures r.Some? ==> r.value.text == EndingLineSetting(d).value
    ensures r.Some? ==> r.value.fontSize == NumOr(EndingFontSizeSetting(d), DefaultEndingFontSize)
  {
    if TruthyStr(EndingLineSetting(d)) then
      Some(EndingView(EndingLineSetting(d).value, NumOr(EndingFontSizeSetting(d), DefaultEndingFontSize)))
    else None
  }

  /** `Report1Template`. Rendering fails (the header dereferences a missing
      object) exactly when `patient`, `report` or `dates` is missing. */
  function Report1Template(d: Report): (r: Option<seq<PageChild>>)
    ensures r.Some? <==> d.patient.Some? && d.report.Some? && d.dates.Some?
  {
    if d.patient.None? || d.report.None? || d.dates.None? then None
    else
      var hh := NumOr(HeaderHeightSetting(d), DefaultHeaderHeight);
      var fh := NumOr(FooterHeightSetting(d), DefaultFooterHeight);
      var bg := StoredBackground(d);
      Some(
        (if TruthyStr(bg) then [BackgroundImage(bg.value)] else [])
        + [ HeaderBand(HeaderOf(d.patient.value, d.report.value, d.dates.value, hh)),
            FooterBand(FooterOf(ListOr(d.doctors), fh)),
            ContentWrapper([
              HeaderSpacer(hh),
              MainContent(SectionsOf(ListOr(d.tests)), EndingOf(d)),
              FooterSpacer(fh)]) ])
  }

  /** The page layout: the background image comes first iff a stored image
      is truthy (the `hasBackground` flag is not consulted); then the header
      band, the footer band and the content, in that order. The bands are
      80 mm and 60 mm unless the settings give a non-zero height, and the
      spacers reserve exactly the bands' heights. */
  lemma PageLayout(d: Report)
    requires d.patient.Some? && d.report.Some? && d.dates.Some?
    ensures var cs := Report1Template(d).value;
      var n := if TruthyStr(StoredBackground(d)) then 1 else 0;
      && |cs| == n + 3
      && (n == 1 ==> cs[0] == BackgroundImage(StoredBackground(d).value))
      && cs[n].HeaderBand? && cs[n + 1].FooterBand? && cs[n + 2].ContentWrapper?
      && cs[n].header.height == NumOr(HeaderHeightSetting(d), DefaultHeaderHeight)
      && cs[n + 1].footer.height == NumOr(FooterHeightSetting(d), DefaultFooterHeight)
      && cs[n + 2].children == [
           HeaderSpacer(cs[n].header.height),
           MainContent(SectionsOf(ListOr(d.tests)), EndingOf(d)),
           FooterSpacer(cs[n + 1].footer.height)]
  {
  }

  /** Every test gets a section, in order, and the footer lists the signing
      doctors whatever the tests are. */
  lemma ContentFollowsTests(d: Report, i: nat)
    requires d.patient.Some? && d.report.Some? && d.dates.Some?
    requires d.tests.Some? && i < |d.tests.value|
    ensures var cs := Report1Template(d).value;
      var main := cs[|cs| - 1].children[1];
      |main.sections| == |d.tests.value| && main.sections[i] == SectionChildren(d.tests.value[i])
  {
    PageLayout(d);
  }
}
