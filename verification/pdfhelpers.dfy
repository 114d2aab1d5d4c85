/** The pure part of the Puppeteer path (`generate-pdf.js`): the Handlebars
    helpers, the MIME inference of the two image loaders, the ending-line
    conversion, the background resolution, the margin heights, the doctor
    mapping and the data handed to the header and footer templates. File
    reads and `fetch` are parameters: a file is its base64 text or missing,
    and a fetch is an oracle function from URL to response. */
module PdfHelpers {
  import opened Strings
  import opened Values
  import opened Fields
  import opened ReportData
  import opened Document

  // ---------------------------------------------------------------------
  // Handlebars helpers.
  // ---------------------------------------------------------------------

  /** `eq`: `a === b`. No conversion between kinds, and `NaN` equals
      nothing, itself included. */
  function StrictEquals(a: JsValue, b: JsValue): (r: bool)
    ensures r ==> a == b
    ensures a.NaN? ==> !r
  {
    !a.NaN? && a == b
  }

  /** Strict equality is symmetric and transitive, reflexive off `NaN`, and
      never relates a number to its own decimal text. */
  lemma StrictEqualityLaws(a: JsValue, b: JsValue, c: JsValue, n: int, s: string)
    ensures StrictEquals(a, b) == StrictEquals(b, a)
    ensures StrictEquals(a, b) && StrictEquals(b, c) ==> StrictEquals(a, c)
    ensures !a.NaN? ==> StrictEquals(a, a)
    ensures !StrictEquals(Num(n), Str(s))
    ensures !StrictEquals(Bool(false), Num(0)) && !StrictEquals(Null, Undefined)
  {
  }

  /** `contains`: `false` for a falsy string, else a substring test. */
  function Contains(str: Option<string>, substr: string): (r: bool)
    ensures r ==> TruthyStr(str)
    ensures TruthyStr(str) ==> (r <==> exists i: nat :: i + |substr| <= |str.value| && At(str.value, i, substr))
  {
    TruthyStr(str) && Includes(str.value, substr)
  }

  /** The falsy guard comes first: the empty string contains nothing, not
      even the empty string, while a missing one contains nothing too; any
      non-empty string contains each of its infixes. */
  lemma ContainsEdges(a: string, t: string, b: string)
    ensures !Contains(Some(""), "") && !Contains(None, t)
    ensures a + t + b != "" ==> Contains(Some(a + t + b), t)
  {
    IncludesInfix(a, t, b);
  }

  /** Which block of a Handlebars block helper is rendered. */
  datatype Branch = FnBranch | InverseBranch

  /** `unless`: the main block iff the conditional is falsy. */
  function Unless(conditional: JsValue): (r: Branch)
    ensures r == FnBranch <==> !Truthy(conditional)
  {
    if !Truthy(conditional) then FnBranch else InverseBranch
  }

  /** The falsy values select the main block; `"0"`, `"false"` and `-1`
      are truthy and select the inverse. */
  lemma UnlessOnJsValues(s: string, n: int)
    ensures Unless(Str(s)) == FnBranch <==> s == ""
    ensures Unless(Num(n)) == FnBranch <==> n == 0
    ensures Unless(NaN) == FnBranch && Unless(Null) == FnBranch && Unless(Undefined) == FnBranch
    ensures Unless(Str("0")) == InverseBranch && Unless(Str("false")) == InverseBranch
    ensures Unless(Num(-1)) == InverseBranch
  {
  }

  /** The test `hasNonHtml` applies to a `field`: a truthy `value` with a
      `displayValue` that is missing or has no `<table`. */
  predicate NonHtmlField(f: FieldData) {
    f.value != "" && (f.displayValue == "" || !Includes(f.displayValue, "<table"))
  }

  /** The inner recursive `hasNonHtml`: the first field passing the test,
      or the first group whose `sub_fields` hold one, answers `true`. */
  function HasNonHtml(fields: seq<Node>): bool
    decreases fields
  {
    if fields == [] then false
    else
      match fields[0]
      case FieldNode(f) => NonHtmlField(f) || HasNonHtml(fields[1..])
      case GroupNode(_, subs) => HasNonHtml(subs) || HasNonHtml(fields[1..])
      case OtherNode(_) => HasNonHtml(fields[1..])
  }

  /** `hasNonHtml` holds iff some `field` at any depth of the tree passes
      the test: the early returns lose nothing. */
  lemma {:induction false} HasNonHtmlFindsField(fields: seq<Node>, depth: nat)
    ensures HasNonHtml(fields) <==>
      exists p :: p in Preorder(fields, depth) && p.node.FieldNode? && NonHtmlField(p.node.field)
    decreases fields
  {
    if fields != [] {
      var head := Placed(fields[0], depth);
      var sub := match fields[0] case GroupNode(_, subs) => Preorder(subs, depth + 1) case _ => [];
      var rest := Preorder(fields[1..], depth);
      assert Preorder(fields, depth) == [head] + sub + rest;
      HasNonHtmlFindsField(fields[1..], depth);
      if fields[0].GroupNode? {
        HasNonHtmlFindsField(fields[0].subFields, depth + 1);
      }
      if HasNonHtml(fields) {
        if fields[0].FieldNode? && NonHtmlField(fields[0].field) {
          assert head in Preorder(fields, depth);
        } else if fields[0].GroupNode? && HasNonHtml(fields[0].subFields) {
          var p :| p in sub && p.node.FieldNode? && NonHtmlField(p.node.field);
          assert p in Preorder(fields, depth);
        } else {
          var p :| p in rest && p.node.FieldNode? && NonHtmlField(p.node.field);
          assert p in Preorder(fields, depth);
        }
      } else {
        forall p | p in Preorder(fields, depth)
          ensures !(p.node.FieldNode? && NonHtmlField(p.node.field))
        {
          assert p == head || p in sub || p in rest;
        }
      }
    }
  }

  /** `hasNonHtmlFields`: a missing (or non-array) `fields` selects the
      inverse block; otherwise the main block iff some field of the tree
      passes the test. */
  function HasNonHtmlFields(fields: Option<seq<Node>>): (r: Branch)
    ensures r == FnBranch <==>
      fields.Some? && exists p :: p in Preorder(fields.value, 0) && p.node.FieldNode? && NonHtmlField(p.node.field)
  {
    if fields.None? then InverseBranch
    else
      HasNonHtmlFindsField(fields.value, 0);
      if HasNonHtml(fields.value) then FnBranch else InverseBranch
  }

  /** The Puppeteer test reads `displayValue`, the React table reads
      `value`: a field whose value is a table but whose display value is
      missing counts as non-HTML here, yet gets no table row in React. */
  lemma DisplayValueNotValue(f: FieldData)
    requires Includes(f.value, "<table") && f.displayValue == ""
    ensures HasNonHtml([FieldNode(f)])
    ensures IsHtmlValue(f.value) && !TableValue(f)
  {
    assert BroadMarkers[0] == "<table";
    assert BroadMarkers[0] in BroadMarkers;
  }

  // ---------------------------------------------------------------------
  // `path.extname` (POSIX) and the extension -> MIME mapping.
  // ---------------------------------------------------------------------

  /** `p` without its trailing `/` characters. */
  function TrimTrailingSlashes(p: string): (r: string)
    ensures r <= p
    ensures r == [] || r[|r| - 1] != '/'
    ensures forall k :: |r| <= k < |p| ==> p[k] == '/'
    decreases |p|
  {
    if p != [] && p[|p| - 1] == '/' then TrimTrailingSlashes(p[..|p| - 1]) else p
  }

  /** The last path component: everything after the last `/`. */
  function LastSegment(p: string): (r: string)
    ensures '/' !in r
    ensures |r| <= |p| && r == p[|p| - |r|..]
    ensures |r| < |p| ==> p[|p| - |r| - 1] == '/'
    decreases |p|
  {
    if p == [] || p[|p| - 1] == '/' then []
    else LastSegment(p[..|p| - 1]) + [p[|p| - 1]]
  }

  /** Index of the last `.` of `s`. */
  function LastDot(s: string): (r: Option<nat>)
    ensures r.None? <==> '.' !in s
    ensures r.Some? ==> r.value < |s| && s[r.value] == '.' && '.' !in s[r.value + 1..]
    decreases |s|
  {
    if s == [] then None
    else if s[|s| - 1] == '.' then Some(|s| - 1)
    else
      var r := LastDot(s[..|s| - 1]);
      assert forall c :: c in s <==> c in s[..|s| - 1] || c == s[|s| - 1];
      if r.Some? then
        assert s[r.value + 1..] == s[..|s| - 1][r.value + 1..] + [s[|s| - 1]];
        r
      else r
  }

  /** The extension of one path component: from its last `.` to its end;
      `""` when it has no `.`, when its last `.` is its first character, or
      when it is `..`. */
  function BaseExtension(base: string): (r: string)
    ensures r == [] || (r[0] == '.' && '.' !in r[1..] && forall c :: c in r ==> c in base)
  {
    match LastDot(base)
    case None => ""
    case Some(d) =>
      if d == 0 || base == ".." then ""
      else
        assert forall c :: c in base[d..] ==> c in base;
        base[d..]
  }

  /** `path.extname` on POSIX paths: the extension of the last component,
      trailing slashes ignored. */
  function Extname(path: string): (r: string)
    ensures r == [] || (r[0] == '.' && '.' !in r[1..] && '/' !in r)
  {
    BaseExtension(LastSegment(TrimTrailingSlashes(path)))
  }

  /** Trailing slashes do not change the extension. */
  lemma ExtnameTrailingSlash(p: string)
    ensures Extname(p + "/") == Extname(p)
  {
    assert (p + "/")[..|p|] == p;
  }

  /** The last component of `dir + name` is `name` when `dir` is empty or
      ends in `/` and `name` has no `/`. */
  lemma {:induction false} LastSegmentOfName(dir: string, name: string)
    requires dir == [] || dir[|dir| - 1] == '/'
    requires '/' !in name
    ensures LastSegment(dir + name) == name
    decreases |name|
  {
    if name == [] {
      assert dir + name == dir;
    } else {
      var init := name[..|name| - 1];
      var last := name[|name| - 1];
      assert last in name;
      assert dir + name == (dir + init) + [last];
      assert (dir + name)[..|dir + name| - 1] == dir + init;
      assert LastSegment(dir + name) == LastSegment(dir + init) + [last];
      assert '/' !in init by {
        assert forall c :: c in init ==> c in name;
      }
      LastSegmentOfName(dir, init);
      assert name == init + [last];
    }
  }

  lemma {:induction false} LastDotOf(stem: string, ext: string)
    requires '.' !in ext
    ensures LastDot(stem + "." + ext) == Some(|stem|)
    decreases |ext|
  {
    var s := stem + "." + ext;
    if ext == [] {
      assert s[|s| - 1] == '.';
    } else {
      var init := ext[..|ext| - 1];
      assert s[|s| - 1] == ext[|ext| - 1];
      assert ext[|ext| - 1] in ext;
      assert s[..|s| - 1] == stem + "." + init;
      assert forall c :: c in init ==> c in ext;
      LastDotOf(stem, init);
    }
  }

  /** A file `stem.ext` in any directory has extension `.ext`, whatever the
      stem holds (`archive.tar.gz` gives `.gz`). */
  lemma ExtnameOfFile(dir: string, stem: string, ext: string)
    requires dir == [] || dir[|dir| - 1] == '/'
    requires stem != [] && '/' !in stem && '/' !in ext && '.' !in ext
    requires !(stem == "." && ext == "")
    ensures Extname(dir + stem + "." + ext) == "." + ext
  {
    var name := stem + "." + ext;
    assert dir + stem + "." + ext == dir + name;
    assert '/' !in name by {
      assert forall c :: c in name ==> c in stem || c == '.' || c in ext;
    }
    LastSegmentOfFile(dir, name);
    LastDotOf(stem, ext);
    NotDotDot(stem, ext);
    BaseExtensionAt(name, |stem|);
    SliceAfterStem(stem, ext);
  }

  lemma SliceAfterStem(stem: string, ext: string)
    ensures (stem + "." + ext)[|stem|..] == "." + ext
  {
  }

  lemma BaseExtensionAt(base: string, d: nat)
    requires LastDot(base) == Some(d) && d != 0 && base != ".."
    ensures BaseExtension(base) == base[d..]
  {
  }

  /** The last component of a path ending in a file name is that name. */
  lemma LastSegmentOfFile(dir: string, name: string)
    requires dir == [] || dir[|dir| - 1] == '/'
    requires name != [] && '/' !in name
    ensures LastSegment(TrimTrailingSlashes(dir + name)) == name
  {
    assert (dir + name)[|dir + name| - 1] == name[|name| - 1];
    assert name[|name| - 1] in name;
    assert TrimTrailingSlashes(dir + name) == dir + name;
    LastSegmentOfName(dir, name);
  }

  lemma NotDotDot(stem: string, ext: string)
    requires stem != [] && !(stem == "." && ext == "")
    ensures stem + "." + ext != ".."
  {
    var name := stem + "." + ext;
    if ext != [] || |stem| != 1 {
      assert |name| != 2;
    } else {
      assert stem == [stem[0]];
      assert name[0] == stem[0] != '.';
    }
  }

  /** A dot-file (`.env`) has no extension. */
  lemma DotfileHasNoExtension(dir: string, name: string)
    requires dir == [] || dir[|dir| - 1] == '/'
    requires '/' !in name && '.' !in name
    ensures Extname(dir + "." + name) == ""
  {
    var base := "." + name;
    assert dir + "." + name == dir + base;
    assert '/' !in base by {
      assert forall c :: c in base ==> c == '.' || c in name;
    }
    LastSegmentOfFile(dir, base);
    LastDotOfDotfile(name);
    BaseExtensionAtStart(base);
  }

  lemma LastDotOfDotfile(name: string)
    requires '.' !in name
    ensures LastDot("." + name) == Some(0)
  {
    LastDotOf([], name);
    assert [] + "." + name == "." + name;
  }

  lemma BaseExtensionAtStart(base: string)
    requires LastDot(base) == Some(0)
    ensures BaseExtension(base) == ""
  {
  }

  const PngMime := "image/png"
  const JpegMime := "image/jpeg"

  /** The MIME type `imageToBase64` picks: JPEG for `.jpg` and `.jpeg` in
      any letter case, PNG for everything else, `.png` included. */
  function MimeForExtension(ext: string): (r: string)
    ensures r == JpegMime <==> LowerAll(ext) == ".jpg" || LowerAll(ext) == ".jpeg"
    ensures r == PngMime <==> r != JpegMime
  {
    var e := LowerAll(ext);
    if e == ".png" then PngMime
    else if e == ".jpg" || e == ".jpeg" then JpegMime
    else PngMime
  }

  function MimeForPath(path: string): (r: string)
    ensures r == PngMime || r == JpegMime
  {
    MimeForExtension(Extname(path))
  }

  /** Neither image type carries parameters. */
  lemma ImageMimesPlain()
    ensures ';' !in PngMime && ';' !in JpegMime
  {
    assert forall k :: 0 <= k < |PngMime| ==> PngMime[k] != ';';
    assert forall k :: 0 <= k < |JpegMime| ==> JpegMime[k] != ';';
  }

  /** A file `stem.ext` is sent as JPEG iff its extension, lower-cased, is
      `jpg` or `jpeg`. */
  lemma MimeOfFile(dir: string, stem: string, ext: string)
    requires dir == [] || dir[|dir| - 1] == '/'
    requires stem != [] && '/' !in stem && '/' !in ext && '.' !in ext
    requires !(stem == "." && ext == "")
    ensures MimeForPath(dir + stem + "." + ext) == JpegMime <==>
      LowerAll("." + ext) == ".jpg" || LowerAll("." + ext) == ".jpeg"
  {
    ExtnameOfFile(dir, stem, ext);
  }

  // ---------------------------------------------------------------------
  // Data URIs.
  // ---------------------------------------------------------------------

  const DataPrefix := "data:"
  const Base64Marker := ";base64,"

  datatype DataParts = DataParts(mime: string, payload: string)

  /** `data:${mime};base64,${payload}`. */
  function DataUri(mime: string, payload: string): (r: string)
    ensures DataPrefix <= r && r != ""
  {
    DataPrefix + mime + Base64Marker + payload
  }

  /** Reads a data URI back: the MIME type runs to the first `;`, which
      must start the `;base64,` marker. */
  function ParseDataUri(s: string): (r: Option<DataParts>)
    ensures r.Some? ==> ';' !in r.value.mime
  {
    if !(DataPrefix <= s) then None
    else
      var rest := s[|DataPrefix|..];
      var mime := BeforeFirst(rest, ';');
      var tail := rest[|mime|..];
      if Base64Marker <= tail then Some(DataParts(mime, tail[|Base64Marker|..])) else None
  }

  /** Building then reading a data URI gives back its parts, when the MIME
      type has no `;`. */
  lemma DataUriRoundTrip(mime: string, payload: string)
    requires ';' !in mime
    ensures ParseDataUri(DataUri(mime, payload)) == Some(DataParts(mime, payload))
  {
    var s := DataUri(mime, payload);
    var rest := s[|DataPrefix|..];
    assert rest == mime + [';'] + ("base64," + payload);
    BeforeFirstStops(mime, ';', "base64," + payload);
    assert rest[|mime|..] == Base64Marker + payload;
  }

  /** Every string that reads as a data URI is the one its parts build. */
  lemma ParsedDataUri(s: string)
    requires ParseDataUri(s).Some?
    ensures DataUri(ParseDataUri(s).value.mime, ParseDataUri(s).value.payload) == s
  {
    var rest := s[|DataPrefix|..];
    var mime := BeforeFirst(rest, ';');
    var tail := rest[|mime|..];
    assert rest == mime + tail;
    assert tail == Base64Marker + tail[|Base64Marker|..];
    assert s == DataPrefix + rest;
  }

  // ---------------------------------------------------------------------
  // `imageToBase64` and `urlToBase64`.
  // ---------------------------------------------------------------------

  /** `imageToBase64`: `""` when the file is missing or unreadable, else a
      data URI typed by the file's extension. The file is given as its
      base64 text. */
  function ImageToBase64(path: string, file: Option<string>): (r: string)
    ensures r == "" <==> file.None?
    ensures file.Some? ==> ParseDataUri(r) == Some(DataParts(MimeForPath(path), file.value))
  {
    if file.None? then ""
    else
      var m := MimeForPath(path);
      ImageMimesPlain();
      DataUriRoundTrip(m, file.value);
      DataUri(m, file.value)
  }

  /** The MIME type taken from a `Content-Type` header: the part before the
      first `;`, trimmed; a missing or empty header means `image/png`. */
  function ContentTypeMime(contentType: Option<string>): (r: string)
    ensures ';' !in r
    ensures r == [] || (!IsJsSpace(r[0]) && !IsJsSpace(r[|r| - 1]))
  {
    var head := BeforeFirst(StrOr(contentType, PngMime), ';');
    TrimChars(head, ';');
    Trim(head)
  }

  /** A missing or empty header means PNG. */
  lemma MissingContentType(contentType: Option<string>)
    requires !TruthyStr(contentType)
    ensures ContentTypeMime(contentType) == PngMime
  {
    assert StrOr(contentType, PngMime) == PngMime;
    assert ';' !in PngMime && !IsJsSpace(PngMime[0]) && !IsJsSpace(PngMime[|PngMime| - 1]);
    PlainMime(PngMime);
  }

  /** A type without parameters or outer white space is taken as it is. */
  lemma PlainMime(m: string)
    requires ';' !in m
    requires m == [] || (!IsJsSpace(m[0]) && !IsJsSpace(m[|m| - 1]))
    ensures Trim(BeforeFirst(m, ';')) == m
  {
    BeforeFirstAbsent(m, ';');
    TrimTrimmed(m);
  }

  /** A non-empty header is white space, the type, white space, then
      nothing or a `;` with parameters: the type alone is kept. */
  lemma ContentTypeParameters(lead: string, mime: string, trail: string, rest: string)
    requires AllSpace(lead) && AllSpace(trail)
    requires ';' !in mime && (mime == [] || (!IsJsSpace(mime[0]) && !IsJsSpace(mime[|mime| - 1])))
    requires rest == [] || rest[0] == ';'
    requires lead + mime + trail + rest != []
    ensures ContentTypeMime(Some(lead + mime + trail + rest)) == mime
  {
    var head := lead + mime + trail;
    assert ';' !in head by {
      assert forall k :: 0 <= k < |head| ==> head[k] != ';' by {
        forall k | 0 <= k < |head| ensures head[k] != ';' {
          if k < |lead| {
            assert head[k] == lead[k];
          } else if k < |lead| + |mime| {
            assert head[k] == mime[k - |lead|];
          } else {
            assert head[k] == trail[k - |lead| - |mime|];
          }
        }
      }
    }
    if rest == [] {
      assert head + rest == head;
      BeforeFirstAbsent(head, ';');
    } else {
      assert head + rest == head + [';'] + rest[1..];
      BeforeFirstStops(head, ';', rest[1..]);
    }
    TrimPadded(lead, mime, trail);
  }

  /** Feeding a derived MIME type back in as a header leaves it unchanged. */
  lemma ContentTypeMimeIdempotent(contentType: Option<string>)
    requires ContentTypeMime(contentType) != ""
    ensures ContentTypeMime(Some(ContentTypeMime(contentType))) == ContentTypeMime(contentType)
  {
    var m := ContentTypeMime(contentType);
    BeforeFirstAbsent(m, ';');
    TrimTrimmed(m);
  }

  /** What `fetch` yields: a failure (a thrown error or a status that is
      not ok), or the `Content-Type` header and the body in base64. */
  datatype FetchResult =
    | Failed
    | Fetched(contentType: Option<string>, payload: string)

  /** `urlToBase64`: `""` for a falsy URL or a failed fetch, else a data URI
      typed by the response's `Content-Type`. */
  function UrlToBase64(url: Option<string>, fetch: string -> FetchResult): (r: string)
    ensures r != "" <==> TruthyStr(url) && fetch(url.value).Fetched?
    ensures r != "" ==>
      ParseDataUri(r) == Some(DataParts(ContentTypeMime(fetch(url.value).contentType), fetch(url.value).payload))
  {
    if !TruthyStr(url) then ""
    else
      match fetch(url.value)
      case Failed => ""
      case Fetched(ct, payload) =>
        DataUriRoundTrip(ContentTypeMime(ct), payload);
        DataUri(ContentTypeMime(ct), payload)
  }

  // ---------------------------------------------------------------------
  // Preparing the report data.
  // ---------------------------------------------------------------------

  /** Turning every `<br>` back into a line break. */
  function BrToNewline(s: string): (r: string)
    decreases |s|
  {
    if s == [] then []
    else if At(s, 0, "<br>") then "\n" + BrToNewline(s[4..])
    else [s[0]] + BrToNewline(s[1..])
  }

  /** Replacing line breaks by `<br>` loses nothing: a line without markup
      of its own is recovered from its HTML form. */
  lemma {:induction false} BrReplaceInvertible(line: string)
    ensures '<' !in line ==> BrToNewline(ReplaceChar(line, '\n', "<br>")) == line
    decreases |line|
  {
    if line != [] && '<' !in line {
      var rest := line[1..];
      assert forall c :: c in rest ==> c in line;
      BrReplaceInvertible(rest);
      var h := ReplaceChar(line, '\n', "<br>");
      if line[0] == '\n' {
        assert h == "<br>" + ReplaceChar(rest, '\n', "<br>");
        assert At(h, 0, "<br>");
        assert h[4..] == ReplaceChar(rest, '\n', "<br>");
      } else {
        assert h == [line[0]] + ReplaceChar(rest, '\n', "<br>");
        assert line[0] in line;
        assert h[0] != '<';
        assert h[1..] == ReplaceChar(rest, '\n', "<br>");
      }
    }
  }

  /** `endingLine.replace(/\n/g, '<br>')`: no line break survives, and a
      line without markup of its own is recovered by reading every `<br>`
      back as a line break. */
  function EndingLineHtml(line: string): (r: string)
    ensures '\n' !in r
    ensures '<' !in line ==> BrToNewline(r) == line
  {
    BrReplaceInvertible(line);
    ReplaceChar(line, '\n', "<br>")
  }

  /** A line written over several lines of text shows them separated by
      `<br>`. */
  lemma EndingLineBreaks(lines: seq<string>)
    requires forall i :: 0 <= i < |lines| ==> '\n' !in lines[i]
    ensures EndingLineHtml(Join(lines, "\n")) == Join(lines, "<br>")
  {
    ReplaceCharJoin(lines, '\n', "<br>");
  }

  /** Step one of `generatePdf`: `reportSettings.endingLineHtml` is set iff
      `endingLine` is truthy, to its HTML form; nothing else changes. */
  function WithEndingLineHtml(d: Report): (r: Report)
    ensures r.(reportSettings := d.reportSettings) == d
    ensures r.reportSettings.Some? <==> d.reportSettings.Some?
    ensures d.reportSettings.Some? ==>
      r.reportSettings.value.(endingLineHtml := d.reportSettings.value.endingLineHtml) == d.reportSettings.value
    ensures TruthyStr(EndingLineSetting(d)) ==>
      r.reportSettings.value.endingLineHtml == Some(EndingLineHtml(EndingLineSetting(d).value))
    ensures !TruthyStr(EndingLineSetting(d)) ==> r == d
  {
    if d.reportSettings.Some? && TruthyStr(d.reportSettings.value.endingLine) then
      var s := d.reportSettings.value;
      d.(reportSettings := Some(s.(endingLineHtml := Some(EndingLineHtml(s.endingLine.value)))))
    else d
  }

  /** The background is fetched when `hasBackground` and `backgroundUrl`
      are both truthy. */
  predicate BackgroundRequested(d: Report) {
    d.reportSettings.Some? && d.reportSettings.value.hasBackground
    && TruthyStr(d.reportSettings.value.backgroundUrl)
  }

  /** Step two: a successful fetch replaces `backgroundBase64`; a failed one,
      or no request, keeps whatever was stored. Nothing else changes. */
  function ResolveBackground(d: Report, fetch: string -> FetchResult): (r: Report)
    ensures r.(reportSettings := d.reportSettings) == d
    ensures r.reportSettings.Some? <==> d.reportSettings.Some?
    ensures d.reportSettings.Some? ==>
      r.reportSettings.value.(backgroundBase64 := d.reportSettings.value.backgroundBase64) == d.reportSettings.value
    ensures BackgroundRequested(d) && fetch(d.reportSettings.value.backgroundUrl.value).Fetched? ==>
      StoredBackground(r) == Some(UrlToBase64(d.reportSettings.value.backgroundUrl, fetch))
    ensures !(BackgroundRequested(d) && fetch(d.reportSettings.value.backgroundUrl.value).Fetched?) ==>
      r == d
  {
    if BackgroundRequested(d) then
      var s := d.reportSettings.value;
      var b := UrlToBase64(s.backgroundUrl, fetch);
      if b != "" then d.(reportSettings := Some(s.(backgroundBase64 := Some(b)))) else d
    else d
  }

  /** The page gets a background iff one is stored after resolution: a
      stored image survives a failed fetch and is used even when
      `hasBackground` is off. */
  lemma BackgroundInjection(d: Report, fetch: string -> FetchResult)
    ensures TruthyStr(StoredBackground(d)) ==> TruthyStr(StoredBackground(ResolveBackground(d, fetch)))
    ensures BackgroundRequested(d) && fetch(d.reportSettings.value.backgroundUrl.value).Fetched? ==>
      TruthyStr(StoredBackground(ResolveBackground(d, fetch)))
    ensures !TruthyStr(StoredBackground(d)) && TruthyStr(StoredBackground(ResolveBackground(d, fetch))) ==>
      BackgroundRequested(d)
  {
  }

  const MarginHeaderDefault := 120
  const MarginFooterDefault := 60

  datatype Margins = Margins(header: int, footer: int)

  /** The page margins: `headerHeight || 120` and `footerHeight || 60`. */
  function MarginsOf(d: Report): (m: Margins)
    ensures m.header == NumOr(HeaderHeightSetting(d), MarginHeaderDefault)
    ensures m.footer == NumOr(FooterHeightSetting(d), MarginFooterDefault)
  {
    Margins(NumOr(HeaderHeightSetting(d), MarginHeaderDefault), NumOr(FooterHeightSetting(d), MarginFooterDefault))
  }

  /** The two renderers agree on the footer height always, and on the
      header height exactly when a non-zero one is set: by default the
      Puppeteer margin is 120 mm against the React band's 80 mm. */
  lemma HeightsAcrossRenderers(d: Report)
    ensures MarginsOf(d).footer == NumOr(FooterHeightSetting(d), DefaultFooterHeight)
    ensures MarginsOf(d).header == NumOr(HeaderHeightSetting(d), DefaultHeaderHeight) <==>
      HeaderHeightSetting(d).Some? && HeaderHeightSetting(d).value != 0
  {
  }

  /** One doctor of `doctorsWithBase64`: the signature is fetched when
      `hasSignature` and `signatureUrl` are truthy, and is `""` otherwise,
      overwriting any stored one. */
  function WithSignature(doc: Doctor, fetch: string -> FetchResult): (r: Doctor)
    ensures r.(signatureBase64 := doc.signatureBase64) == doc
    ensures !(doc.hasSignature && TruthyStr(doc.signatureUrl)) ==> r.signatureBase64 == Some("")
    ensures doc.hasSignature && TruthyStr(doc.signatureUrl) ==>
      r.signatureBase64 == Some(UrlToBase64(doc.signatureUrl, fetch))
    ensures TruthyStr(r.signatureBase64) <==>
      doc.hasSignature && TruthyStr(doc.signatureUrl) && fetch(doc.signatureUrl.value).Fetched?
  {
    if doc.hasSignature && TruthyStr(doc.signatureUrl) then
      doc.(signatureBase64 := Some(UrlToBase64(doc.signatureUrl, fetch)))
    else doc.(signatureBase64 := Some(""))
  }

  /** `doctorsWithBase64`: the doctors in order, each with its signature
      resolved. */
  function DoctorsWithBase64(ds: seq<Doctor>, fetch: string -> FetchResult): (r: seq<Doctor>)
    ensures |r| == |ds|
    ensures forall i :: 0 <= i < |ds| ==> r[i] == WithSignature(ds[i], fetch)
  {
    seq(|ds|, i requires 0 <= i < |ds| => WithSignature(ds[i], fetch))
  }

  /** The mapping keeps `hasSignature`, so selecting the signing doctors
      before or after it gives the same list. */
  lemma {:induction false} SigningDoctorsCommute(ds: seq<Doctor>, fetch: string -> FetchResult)
    ensures Signed(DoctorsWithBase64(ds, fetch)) == DoctorsWithBase64(Signed(ds), fetch)
    decreases |ds|
  {
    if ds != [] {
      var x := ds[0];
      var rest := ds[1..];
      assert ds == [x] + rest;
      MappedCons(x, rest, fetch);
      SignedCons(WithSignature(x, fetch), DoctorsWithBase64(rest, fetch));
      SignedCons(x, rest);
      SigningDoctorsCommute(rest, fetch);
      if x.hasSignature {
        MappedCons(x, Signed(rest), fetch);
      }
    }
  }

  lemma SignedCons(x: Doctor, s: seq<Doctor>)
    ensures Signed([x] + s) == if x.hasSignature then [x] + Signed(s) else Signed(s)
  {
    assert ([x] + s)[1..] == s;
  }

  lemma MappedCons(x: Doctor, s: seq<Doctor>, fetch: string -> FetchResult)
    ensures DoctorsWithBase64([x] + s, fetch) == [WithSignature(x, fetch)] + DoctorsWithBase64(s, fetch)
  {
  }

  /** What the header and footer templates receive. */
  datatype HeaderFooterData = HeaderFooterData(
    patientName: string,
    ageGender: string,
    referredBy: string,
    patientId: string,
    reportId: string,
    reportDate: string,
    regDate: string,
    qrCodeData: string,
    doctors: seq<Doctor>,
    backgroundBase64: string)

  /** `data.patient?.x`, `data.report?.x` and `data.dates?.x` read a missing
      object as one whose properties are all missing. */
  function PatientOrEmpty(d: Report): Patient {
    if d.patient.Some? then d.patient.value else Patient(None, None, None, None)
  }

  function ReportOrEmpty(d: Report): ReportInfo {
    if d.report.Some? then d.report.value else ReportInfo(None, None, None)
  }

  function DatesOrEmpty(d: Report): Dates {
    if d.dates.Some? then d.dates.value else Dates(None, None, None)
  }

  /** `headerFooterData`: every text is `|| ''`, so it never fails and
      never shows `undefined`; the age and gender are joined by ` / ` and
      the date and time by a space. */
  function HeaderFooterDataOf(d: Report, doctors: seq<Doctor>): (h: HeaderFooterData)
    ensures h.patientName == StrOr(PatientOrEmpty(d).fullName, "")
    ensures h.referredBy == StrOr(PatientOrEmpty(d).referringDoctor, "")
    ensures h.patientId == StrOr(ReportOrEmpty(d).billNumber, "")
    ensures h.reportId == StrOr(ReportOrEmpty(d).reportNumber, "")
    ensures h.regDate == StrOr(DatesOrEmpty(d).collectionDate, "")
    ensures h.qrCodeData == StrOr(ReportOrEmpty(d).barcode, "")
    ensures h.ageGender == StrOr(PatientOrEmpty(d).ageDisplay, "") + " / " + StrOr(PatientOrEmpty(d).genderDisplay, "")
    ensures h.reportDate == StrOr(DatesOrEmpty(d).reportDate, "") + " " + StrOr(DatesOrEmpty(d).reportTime, "")
    ensures d.patient.None? ==> h.patientName == "" && h.ageGender == " / " && h.referredBy == ""
    ensures d.report.None? ==> h.patientId == "" && h.reportId == "" && h.qrCodeData == ""
    ensures d.dates.None? ==> h.reportDate == " " && h.regDate == ""
    ensures h.doctors == doctors
    ensures h.backgroundBase64 == StrOr(StoredBackground(d), "")
  {
    var p := PatientOrEmpty(d);
    var r := ReportOrEmpty(d);
    var t := DatesOrEmpty(d);
    HeaderFooterData(
      StrOr(p.fullName, ""),
      StrOr(p.ageDisplay, "") + " / " + StrOr(p.genderDisplay, ""),
      StrOr(p.referringDoctor, ""),
      StrOr(r.billNumber, ""),
      StrOr(r.reportNumber, ""),
      StrOr(t.reportDate, "") + " " + StrOr(t.reportTime, ""),
      StrOr(t.collectionDate, ""),
      StrOr(r.barcode, ""),
      doctors,
      StrOr(StoredBackground(d), ""))
  }

  /** When the age, the gender and the report date are present, the two
      renderers put the same texts in the header, and the QR code is drawn
      under the same condition. */
  lemma HeaderTextsAgree(d: Report, doctors: seq<Doctor>, height: int)
    requires d.patient.Some? && d.report.Some? && d.dates.Some?
    requires d.patient.value.ageDisplay.Some? && d.patient.value.genderDisplay.Some?
    requires d.dates.value.reportDate.Some?
    ensures var h := HeaderFooterDataOf(d, doctors);
      var v := HeaderOf(d.patient.value, d.report.value, d.dates.value, height);
      && h.patientName == v.patientColumn[0].value
      && h.ageGender == v.patientColumn[1].value
      && h.referredBy == v.patientColumn[2].value
      && h.patientId == v.patientColumn[3].value
      && h.reportId == v.reportColumn[0].value
      && h.reportDate == v.reportColumn[1].value
      && h.regDate == v.reportColumn[2].value
      && (v.qrCode.Some? <==> h.qrCodeData != "")
  {
    var p := d.patient.value;
    assert StrOr(p.ageDisplay, "") == Concat(p.ageDisplay);
    assert StrOr(p.genderDisplay, "") == Concat(p.genderDisplay);
    assert StrOr(d.dates.value.reportDate, "") == Concat(d.dates.value.reportDate);
  }

  /** A missing age is where the renderers differ: React prints
      `undefined / …`, the Puppeteer header ` / …`. */
  lemma MissingAgeDiffers(d: Report, doctors: seq<Doctor>, height: int)
    requires d.patient.Some? && d.report.Some? && d.dates.Some?
    requires d.patient.value.ageDisplay.None?
    ensures HeaderFooterDataOf(d, doctors).ageGender
      != HeaderOf(d.patient.value, d.report.value, d.dates.value, height).patientColumn[1].value
  {
    var h := HeaderFooterDataOf(d, doctors);
    var v := HeaderOf(d.patient.value, d.report.value, d.dates.value, height);
    assert h.ageGender[0] == ' ';
    assert v.patientColumn[1].value[0] == 'u';
  }
}
