# PDF report template: a Dafny model

This project models the layout-decision core of a laboratory-report PDF
generator. The generator has two renderers.

- The **React-PDF renderer** (`Report1Template`). It flattens each test's tree
  of result fields into table rows and decides for each test section whether
  it shows HTML runs, a results table or plain `name: value` rows. It cleans
  TinyMCE table markup before handing it to the HTML renderer. It composes
  one A4 page from a background image, a fixed header band, a fixed footer
  band and the flowing content.
- The **Puppeteer renderer** (`generate-pdf.js`). It uses Handlebars helpers
  (`eq`, `contains`, `unless`, `hasNonHtmlFields`) and turns images into data
  URIs. It converts the ending line to HTML and resolves the background and
  the doctors' signatures through `fetch`. It builds the data for the
  header and footer templates.

Everything here is pure: strings are `seq<char>`, missing properties are
`Option`s, JavaScript truthiness and the `x || d` default idiom are explicit
functions, and `fetch` is an oracle function from URL to `FetchResult`.

Files and modules:

- `strings.dfy` (`Strings`): substring tests, ASCII case folding, the literal
  global replacements, `trim`, `split(c)[0]`.
- `values.dfy` (`Values`): `Option`, JavaScript primitive values, truthiness,
  `||` defaults, string conversion of a missing property.
- `fields.dfy` (`Fields`): the field tree, `isHtmlValue`, `renderFields`,
  `FieldRow`/`GroupRow`. It also holds a reference pre-order traversal and
  the inverse `Regroup`.
- `cleaner.dfy` (`Cleaner`): `cleanHtmlForPdf`. Its two regex rewrites are
  stated declaratively as match predicates and computed by scanners proved
  to find the match the regex engine reports.
- `sections.dfy` (`Sections`): `TestSection`, its three display modes and
  the order of its children.
- `report.dfy` (`ReportData`): the input records.
- `document.dfy` (`Document`): `Header`, `Footer`, `Report1Template`.
- `pdfhelpers.dfy` (`PdfHelpers`): the pure helpers and data preparation of
  `generate-pdf.js`.

An `HtmlRun` child records the original field value. The markup handed to
the HTML element is `Sections.RunMarkup` of it, which is
`cleanHtmlForPdf` of that value.

## Model

| member | source | states |
|---|---|---|
| Fields.IsHtmlValue | engines/react-pdf/templates/Report1Template.js:619-627 | false for the empty value; otherwise true iff the value contains one of the six markers `<table`, `<p>`, `<br`, `<strong`, `<b>`, `</` |
| Fields.HasNarrowMarker | engines/react-pdf/templates/Report1Template.js:541-548 | true iff the value contains one of the four markers `hasHtmlContent` looks for |
| Fields.NarrowWithinBroad | engines/react-pdf/templates/Report1Template.js:619-627 | every non-empty value the narrow test accepts `isHtmlValue` accepts; the values only the broad test accepts are exactly those whose markup is `<b>` or `</` |
| Fields.NoAngleNoMarkup | engines/react-pdf/templates/Report1Template.js:619-627 | a value without `<` is never taken for markup by either test |
| Fields.GapWitnesses | engines/react-pdf/templates/Report1Template.js:619-627 | `<b>` and `</` pass the broad test and fail the narrow one |
| Fields.EmptyGroupIsLabelOnly | engines/react-pdf/templates/Report1Template.js:525-531 | a group without `sub_fields` yields only its label row |
| Fields.RenderFieldsAppend | engines/react-pdf/templates/Report1Template.js:509-536 | rendering distributes over concatenation of siblings, so input order is kept |
| Fields.RowsAreTableRows | engines/react-pdf/templates/Report1Template.js:517-531 | no row is shallower than the starting indent, the first row sits at it, and every field row carries a truthy non-HTML value |
| Fields.RenderFields | engines/react-pdf/templates/Report1Template.js:509-536 | no contract of its own: RenderFieldsIsPreorder, RowsAreTableRows, RowMembership and RegroupRenderFields state what the rows are |
| Fields.RenderFieldsIsPreorder | engines/react-pdf/templates/Report1Template.js:509-536 | the rows are the pre-order traversal of the tree, each node shown at its number of enclosing groups, skipped nodes contributing nothing |
| Fields.RowMembership | engines/react-pdf/templates/Report1Template.js:509-536 | a field row at indent k appears iff that field has a table value and sits k groups deep; a group row iff that group sits k deep |
| Fields.RegroupRenderFields | engines/react-pdf/templates/Report1Template.js:509-536 | rebuilding a tree from the rows by their indents gives back the input tree restricted to the shown nodes |
| Fields.FlatteningIsLossless | engines/react-pdf/templates/Report1Template.js:509-536 | for a tree whose every node is shown, the rows determine the tree |
| Fields.Flag | engines/react-pdf/templates/Report1Template.js:488 | `H` iff abnormal and `high`, `L` iff abnormal and `low`, empty otherwise |
| Fields.ViewFieldRow | engines/react-pdf/templates/Report1Template.js:480-497 | indent styling exactly at depth 1 or 2; bold name iff abnormal; colour from `abnormalType` alone; the flag is `Flag` of the field, and a shown flag always comes with a colour |
| Fields.ViewGroupRow | engines/react-pdf/templates/Report1Template.js:500-506 | a group label is indented only at depth 1, never with the depth-2 style |
| Fields.IndentNotMonotone | engines/react-pdf/templates/Report1Template.js:481 | rows three groups deep are padded like top-level rows, and a depth-2 group label is padded less than depth-2 fields |
| Fields.EmphasisWithoutFlag | engines/react-pdf/templates/Report1Template.js:482-488 | a `high` type colours the result of a field not marked abnormal while its flag stays empty |
| Cleaner.MatchAtTr | engines/react-pdf/templates/Report1Template.js:117 | for a given `<tr`, finds a match of the background regex there whenever one exists, and it is the one backtracking prefers (last `style="`, last declaration) |
| Cleaner.FindBg | engines/react-pdf/templates/Report1Template.js:116-119 | the match the engine reports: at the leftmost `<tr` that starts one, preferred over every other match; none iff no `<tr` starts a match |
| Cleaner.DeclEnd | engines/react-pdf/templates/Report1Template.js:117 | the removed declaration runs exactly to the first `;`, `}`, `"` or `'` after the colon (or the end of the text), taking that character along only when it is a `;` |
| Cleaner.RemoveBackground | engines/react-pdf/templates/Report1Template.js:116-119 | without a match the text is unchanged; with one exactly one `background-color:` declaration, up to its first stop character and an optional `;`, is cut and everything else is kept |
| Cleaner.FindRow | engines/react-pdf/templates/Report1Template.js:123-125 | the first `<tr` followed by a `>` and then a `</tr>`, with the lazy body ending at the first `</tr>`; none iff no such block exists |
| Cleaner.HasBoldFrom | engines/react-pdf/templates/Report1Template.js:127 | true iff `font-weight:`, optional white space and `bold` occur, in any letter case |
| Cleaner.PromoteCells | engines/react-pdf/templates/Report1Template.js:129-131 | keeps the length and leaves no `<td` or `</td>` in any case; every `<td` and `</td>` of the content, in any case, becomes exactly `<th` and `</th>`; no other character changes; cell-free text is returned unchanged |
| Cleaner.PromoteRow | engines/react-pdf/templates/Report1Template.js:125-135 | outside the row block nothing changes and the tag attributes are kept; without bold content nothing changes at all; with it the content becomes `PromoteCells` of the content, between lower-case row tags |
| Cleaner.PromoteHeaderRow | engines/react-pdf/templates/Report1Template.js:123-136 | only the first row block is touched, the length is kept, and text without a row block is returned unchanged |
| Cleaner.CleanHtmlForPdf | engines/react-pdf/templates/Report1Template.js:108-139 | never longer than the input; the same length iff no background declaration is removed; unchanged when neither rewrite matches |
| Cleaner.CleanWithoutRows | engines/react-pdf/templates/Report1Template.js:108-139 | text without any `<tr` passes through unchanged |
| Cleaner.LaterRowBackground | engines/react-pdf/templates/Report1Template.js:113-119 | the background rewrite is not limited to the first row, despite the comment at line 113: a styled `<tr` with a declaration always makes the text shorter, and when no earlier text carries a `background-color:` the declaration cut is this row's and the text before it is kept |
| Strings.ReplaceLeavesNone | engines/react-pdf/templates/Report1Template.js:130-131 | after a global case-insensitive replacement no occurrence of the pattern is left, and an absent tag is not created |
| Strings.ReplaceWithinOccurrences | engines/react-pdf/templates/Report1Template.js:130-131 | a same-length global replacement changes a character only inside an occurrence of the pattern, into the replacement's character at the same offset |
| Strings.ReplaceCoversOccurrence | engines/react-pdf/templates/Report1Template.js:130-131 | for a pattern whose first character does not recur in it, every occurrence, in any case, is replaced in full by the replacement text |
| Strings.ReplaceSubstitutes | engines/react-pdf/templates/Report1Template.js:130-131 | each character of the replaced text is the original one or the replacement's character at the same position of a matched pattern letter |
| Sections.HasHtmlContent | engines/react-pdf/templates/Report1Template.js:541-548 | true iff some top-level field has a truthy value with one of the four narrow markers |
| Sections.HasTableFields | engines/react-pdf/templates/Report1Template.js:551-554 | true iff some top-level node is a group or a field with a non-HTML value and a unit or range |
| Sections.HtmlRuns | engines/react-pdf/templates/Report1Template.js:561-579 | one run per top-level field whose value `isHtmlValue` accepts, holding that value, in field order |
| Sections.RunMarkup | engines/react-pdf/templates/Report1Template.js:566 | the markup shown for a run is never longer than its value and equals it when the value has no `<tr` |
| Sections.Label | engines/react-pdf/templates/Report1Template.js:597 | a plain row has a caption iff the name is non-empty, and it is the name plus `:` |
| Sections.PlainRows | engines/react-pdf/templates/Report1Template.js:592-603 | one plain row per top-level field with a truthy value, HTML or not, in field order |
| Sections.SectionChildren | engines/react-pdf/templates/Report1Template.js:539-616 | children always come in the order category, test name, HTML runs, table, plain rows, interpretation; SectionBlocks, SectionFrame and SectionModes state which blocks are present |
| Sections.SectionFrame | engines/react-pdf/templates/Report1Template.js:556-613 | the category and the test name always come first; the interpretation is present iff its text is truthy |
| Sections.SectionModes | engines/react-pdf/templates/Report1Template.js:561-603 | runs appear iff `hasHtmlContent`; the table appears iff `hasTableFields`, holding the rows of `renderFields`; plain rows only when neither holds |
| Sections.ValueShownExactly | engines/react-pdf/templates/Report1Template.js:561-603 | a top-level value is shown iff it is HTML in markup mode, non-HTML in table mode, or the section is in neither mode |
| Sections.DroppedBoldValue | engines/react-pdf/templates/Report1Template.js:541-564 | a value whose only markup is `<b>` or `</` disappears from a table section |
| Sections.DroppedPlainValue | engines/react-pdf/templates/Report1Template.js:561-603 | in markup mode a plain value without unit or range appears in no child |
| Document.HeaderOf | engines/react-pdf/templates/Report1Template.js:398-448 | the seven caption/value rows: name, bill number and report number shown as nothing when missing; age and gender joined by ` / ` and the report date and time by a space, a missing age, gender or date printed as `undefined`; referring doctor, time and registration date falling back to empty; QR code iff the barcode is truthy, holding it |
| Document.Signed | engines/react-pdf/templates/Report1Template.js:452 | keeps exactly the doctors with `hasSignature` |
| Document.SignedAppend | engines/react-pdf/templates/Report1Template.js:452 | the filter distributes over concatenation, so the doctors keep their order |
| Document.QualificationText | engines/react-pdf/templates/Report1Template.js:460 | the shown qualification has no line break and equals the stored one when it had none |
| Document.QualificationLines | engines/react-pdf/templates/Report1Template.js:460 | a qualification written one line per degree is shown as the degrees joined by `, ` |
| Document.SignatureOf | engines/react-pdf/templates/Report1Template.js:457-461 | the stored signature as image iff it is truthy; the qualification with line breaks turned into `, ` iff truthy; `Reg: ` and the number iff the number is truthy |
| Document.FooterOf | engines/react-pdf/templates/Report1Template.js:451-466 | one signature block per signing doctor, in order, at the given height |
| Document.FooterMembership | engines/react-pdf/templates/Report1Template.js:452-463 | every signing doctor has a block, and with no signing doctor the footer is empty |
| Document.EndingOf | engines/react-pdf/templates/Report1Template.js:642-682 | the ending line is present iff its text is truthy, with the set font size or 12 |
| Document.Report1Template | engines/react-pdf/templates/Report1Template.js:630-699 | rendering fails exactly when `patient`, `report` or `dates` is missing |
| Document.PageLayout | engines/react-pdf/templates/Report1Template.js:640-699 | background first iff a stored image is truthy, then header, footer and content; heights are the setting or 80 and 60; the spacers repeat the band heights |
| Document.ContentFollowsTests | engines/react-pdf/templates/Report1Template.js:677-681 | the main content holds one section per test, in order |
| PdfHelpers.StrictEquals | generate-pdf.js:7-9 | equality without conversion; `NaN` equals nothing |
| PdfHelpers.StrictEqualityLaws | generate-pdf.js:7-9 | symmetric, transitive, reflexive off `NaN`; a number never equals a string; `false` is not `0` and `null` is not `undefined` |
| PdfHelpers.Contains | generate-pdf.js:11-14 | false for a falsy string, otherwise true iff the substring occurs |
| PdfHelpers.ContainsEdges | generate-pdf.js:11-14 | the empty string does not contain even the empty string; a non-empty string contains each of its infixes |
| PdfHelpers.Unless | generate-pdf.js:16-22 | the main block iff the conditional is falsy |
| PdfHelpers.UnlessOnJsValues | generate-pdf.js:16-22 | `""`, `0`, `NaN`, `null` and `undefined` select the main block; `"0"`, `"false"` and `-1` select the inverse |
| PdfHelpers.HasNonHtml | generate-pdf.js:27-40 | no contract of its own: HasNonHtmlFindsField states it holds iff some field at any depth passes the test |
| PdfHelpers.HasNonHtmlFindsField | generate-pdf.js:27-40 | the early-returning search is true iff some field at any depth has a truthy value and a display value that is missing or lacks `<table` |
| PdfHelpers.HasNonHtmlFields | generate-pdf.js:24-47 | missing fields select the inverse block; otherwise the main block iff such a field exists in the tree |
| PdfHelpers.DisplayValueNotValue | generate-pdf.js:29-31 | a table value with no display value counts as non-HTML for this helper, yet gets no row in the React table |
| PdfHelpers.Extname | generate-pdf.js:54 | the extension is empty or a `.` followed by text with no `.` or `/` |
| PdfHelpers.ExtnameTrailingSlash | generate-pdf.js:54 | a trailing slash does not change the extension |
| PdfHelpers.ExtnameOfFile | generate-pdf.js:54 | a file `stem.ext` in any directory has extension `.ext` |
| PdfHelpers.DotfileHasNoExtension | generate-pdf.js:54 | a name that starts with its only `.` has no extension |
| PdfHelpers.MimeForExtension | generate-pdf.js:55 | JPEG iff the lower-cased extension is `.jpg` or `.jpeg`, PNG otherwise |
| PdfHelpers.MimeOfFile | generate-pdf.js:54-55 | a file `stem.ext` is typed JPEG iff its lower-cased extension is `.jpg` or `.jpeg` |
| PdfHelpers.DataUriRoundTrip | generate-pdf.js:56 | reading a built data URI gives back its MIME type and payload |
| PdfHelpers.ParsedDataUri | generate-pdf.js:82 | every string that reads as a data URI is the one its parts build |
| PdfHelpers.ImageToBase64 | generate-pdf.js:50-62 | empty iff the file cannot be read; otherwise a data URI with the extension's MIME type and the file's contents |
| PdfHelpers.ContentTypeMime | generate-pdf.js:79-80 | the type has no `;` and no outer white space; ContentTypeParameters pins its value for every non-empty header |
| PdfHelpers.MissingContentType | generate-pdf.js:79 | a missing or empty header gives `image/png` |
| PdfHelpers.ContentTypeParameters | generate-pdf.js:80 | any non-empty header, written as white space, a type, white space and nothing or `;` with parameters, gives exactly that type |
| PdfHelpers.ContentTypeMimeIdempotent | generate-pdf.js:79-80 | a derived type fed back in as a header is unchanged |
| PdfHelpers.UrlToBase64 | generate-pdf.js:65-87 | empty iff the URL is falsy or the fetch fails; otherwise a data URI with the response's MIME type and body |
| PdfHelpers.EndingLineHtml | generate-pdf.js:111-112 | the HTML form has no line break, and a text without `<` is recovered from it by reading each `<br>` as a line break |
| PdfHelpers.BrReplaceInvertible | generate-pdf.js:111-112 | turning each `<br>` back into a line break recovers a text without `<` from its replaced form |
| PdfHelpers.EndingLineBreaks | generate-pdf.js:111-112 | lines joined by line breaks come out joined by `<br>`, whatever markup the lines hold |
| PdfHelpers.WithEndingLineHtml | generate-pdf.js:110-114 | `endingLineHtml` is set iff the ending line is truthy, to its HTML form, and nothing else changes |
| PdfHelpers.ResolveBackground | generate-pdf.js:116-126 | a requested and successful fetch replaces the stored background; otherwise the data is unchanged; nothing else changes |
| PdfHelpers.BackgroundInjection | generate-pdf.js:116-150 | a stored background survives a failed fetch and is injected even without `hasBackground`; a new one appears only when requested |
| PdfHelpers.MarginsOf | generate-pdf.js:144-145 | the page margins are the header and footer heights, or 120 and 60 when missing or zero; HeightsAcrossRenderers compares them with the React bands |
| PdfHelpers.HeightsAcrossRenderers | generate-pdf.js:144-145 | the footer margin matches the React band; the header margin matches only when a non-zero height is set (120 against 80 otherwise) |
| PdfHelpers.WithSignature | generate-pdf.js:190-200 | only `signatureBase64` changes; it is `urlToBase64` of the URL when `hasSignature` and the URL are truthy and empty otherwise, overwriting a stored one, and truthy iff the fetch also succeeds |
| PdfHelpers.DoctorsWithBase64 | generate-pdf.js:189-201 | same length and order as the input, each doctor mapped on its own |
| PdfHelpers.SigningDoctorsCommute | generate-pdf.js:189-201 | selecting the signing doctors before or after the mapping gives the same list |
| PdfHelpers.HeaderFooterDataOf | generate-pdf.js:205-218 | each of the eight texts is its property or, when the property or its object is missing, empty; so a missing object yields ` / ` and a single space but never a failure |
| PdfHelpers.HeaderTextsAgree | generate-pdf.js:205-213 | when age, gender and report date are present, the header texts equal those of the React header, and the QR code shows under the same condition |
| PdfHelpers.MissingAgeDiffers | generate-pdf.js:207 | with a missing age the two headers differ: `undefined / …` against ` / …` |

## Left out

- Pagination and page breaking are done by the PDF renderer and by Chromium. The `fixed` and `wrap` props are not modelled.
- File reads, `fetch`, launching the browser, `page.pdf` and `ReactPDF.render` are outside the model. A file is given as its base64 text or as missing. A fetch is an oracle function returning the `Content-Type` header and the base64 body.
- Base64 encoding of bytes is not modelled. The payload is taken as already-encoded text.
- engines/react-pdf/generate.js, engines/index.js and dev-server.js are not part of this model.
- Styles, fonts, the HTML stylesheet, the `TableHeader` component, React keys and logging are static or presentational, so they are not modelled.
- The CSS text injected for the background (generate-pdf.js:152-169) is not modelled. Only the decision to inject it, `BackgroundInjection`, is.
- Handlebars compilation and the HTML templates are not modelled. The templates are not part of this model.
- JavaScript dynamic typing is not modelled: non-string field values, non-array `fields` or `doctors`, string or fractional heights, and objects compared by `eq`. Numbers are integers, so `-0` and fractions are out of scope.
- The interpretation is modelled as its text. A missing `interpretation` object and a missing text behave alike.
- MimeForExtension: lower-cases ASCII letters only, while `toLowerCase` also folds letters of other alphabets.
- Extname: models the POSIX `path.extname`; Windows separators are not modelled.
- `imageToBase64` is defined in generate-pdf.js but not called there. It is modelled on its own.
- Sections.RunMarkup: the `HtmlRun` child keeps the raw value. The cleaned markup is obtained through `RunMarkup` rather than stored, to keep each section's contract independent of the cleaner's.
