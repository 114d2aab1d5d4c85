/** `cleanHtmlForPdf`: the two single-match, case-insensitive rewrites the
    template applies to rich-text values before embedding them.

    1. `/(<tr[^>]*style="[^"]*)(background-color:\s*[^;}"']+;?)([^"]*")/i`
       replaced by `$1$3`: one `background-color` declaration is cut out of
       the inline style of a `<tr` tag.
    2. `/<tr([^>]*)>([\s\S]*?)<\/tr>/i`: the first row block; when its content
       matches `/font-weight:\s*bold/i`, every `<td` becomes `<th` and every
       `</td>` becomes `</th>` inside it.

    Each regex is modelled by a declarative description of what a match is
    (`BgMatch`, `RowMatch`) plus the choice the backtracking engine makes
    among matches, and a scanner proved to find exactly that match. */
module Cleaner {
  import opened Strings
  import opened Values

  const TrOpen := "<tr"
  const StyleOpen := "style=\""
  const BgDecl := "background-color:"
  const TrClose := "</tr>"
  const BoldDecl := "font-weight:"

  /** No `c` among the characters of `s[lo..hi]`. */
  predicate NoChar(s: string, lo: nat, hi: nat, c: char) {
    forall k :: lo <= k < hi && k < |s| ==> s[k] != c
  }

  /** Index of the first `c` at or after `i`, or `|s|` if there is none. */
  function FirstFrom(s: string, c: char, i: nat): (j: nat)
    requires i <= |s|
    ensures i <= j <= |s|
    ensures NoChar(s, i, j, c)
    ensures j < |s| ==> s[j] == c
    decreases |s| - i
  {
    if i == |s| || s[i] == c then i else FirstFrom(s, c, i + 1)
  }

  /** A character excluded by `[^;}"']`. */
  predicate IsStop(c: char) {
    c == ';' || c == '}' || c == '"' || c == '\''
  }

  /** Index of the first stop character at or after `i`, or `|s|`. */
  function FirstStop(s: string, i: nat): (j: nat)
    requires i <= |s|
    ensures i <= j <= |s|
    ensures forall k :: i <= k < j ==> !IsStop(s[k])
    ensures j < |s| ==> IsStop(s[j])
    decreases |s| - i
  {
    if i == |s| || IsStop(s[i]) then i else FirstStop(s, i + 1)
  }

  /** A literal none of whose characters is `c` cannot match over a `c`. */
  lemma AtCiAvoids(s: string, i: nat, pat: string, c: char)
    requires AtCi(s, i, pat) && c !in pat && !('a' <= c <= 'z') && !('A' <= c <= 'Z')
    ensures NoChar(s, i, i + |pat|, c)
  {
    forall k | i <= k < i + |pat| && k < |s| ensures s[k] != c {
      var d := pat[k - i];
      assert d in pat;
      assert Lower(s[i + (k - i)]) == d;
    }
  }

  // ---------------------------------------------------------------------
  // Rewrite 1: the background-colour declaration.
  // ---------------------------------------------------------------------

  /** `background-color:\s*[^;}"']+` can start at `b`. Since white space is
      itself outside the stop set, this only needs one non-stop character
      after the colon. */
  predicate BgCandidate(s: string, b: nat) {
    AtCi(s, b, BgDecl) && b + |BgDecl| < |s| && !IsStop(s[b + |BgDecl|])
  }

  /** A closing `"` exists at or after `i`. */
  predicate QuoteAfter(s: string, i: nat) {
    exists k :: i <= k < |s| && s[k] == '"'
  }

  /** `<tr[^>]*` reaches from `p` to a `style="` at `q`. */
  predicate StyleInTag(s: string, p: nat, q: nat) {
    AtCi(s, p, TrOpen) && p + |TrOpen| <= q && NoChar(s, p + |TrOpen|, q, '>') && AtCi(s, q, StyleOpen)
  }

  /** `[^"]*` reaches from the opening quote to a declaration at `b`, and the
      rest of the regex (`;?[^"]*"`) can complete. */
  predicate DeclInStyle(s: string, q: nat, b: nat) {
    q + |StyleOpen| <= b && NoChar(s, q + |StyleOpen|, b, '"') && BgCandidate(s, b) && QuoteAfter(s, b + |BgDecl|)
  }

  /** The regex matches with its three parts starting at `p`, `q` and `b`. */
  predicate BgMatch(s: string, p: nat, q: nat, b: nat) {
    StyleInTag(s, p, q) && DeclInStyle(s, q, b)
  }

  /** Where a match of rewrite 1 starts: the `<tr`, the `style="`, the
      declaration. */
  datatype BgSite = BgSite(tr: nat, style: nat, decl: nat)

  /** The match the engine reports: the leftmost `<tr`; then, because
      `[^>]*` and `[^"]*` are greedy and backtrack from the right, the last
      `style="` and within it the last declaration that complete a match. */
  predicate Preferred(m: BgSite, p: nat, q: nat, b: nat) {
    m.tr < p || (m.tr == p && (m.style > q || (m.style == q && m.decl >= b)))
  }

  lemma DeclInStyleByQuote(s: string, q: nat)
    requires q + |StyleOpen| <= |s|
    ensures forall b: nat :: DeclInStyle(s, q, b) <==>
      q + |StyleOpen| <= b && BgCandidate(s, b) && b < FirstFrom(s, '"', q + |StyleOpen|) < |s|
  {
    var fq := FirstFrom(s, '"', q + |StyleOpen|);
    forall b | q + |StyleOpen| <= b && BgCandidate(s, b)
      ensures DeclInStyle(s, q, b) <==> b < fq < |s|
    {
      AtCiAvoids(s, b, BgDecl, '"');
      if b < fq < |s| {
        assert fq >= b + |BgDecl|;
        assert QuoteAfter(s, b + |BgDecl|);
      }
      if DeclInStyle(s, q, b) {
        var k :| b + |BgDecl| <= k < |s| && s[k] == '"';
        assert fq < |s|;
        assert b != fq;
      }
    }
  }

  /** The last declaration candidate in `[q + |StyleOpen|, hi)`. */
  function LastBg(s: string, q: nat, hi: nat): (r: Option<nat>)
    requires q + |StyleOpen| <= hi <= |s|
    ensures r.Some? ==> q + |StyleOpen| <= r.value < hi && BgCandidate(s, r.value)
    ensures r.Some? ==> forall b: nat :: r.value < b < hi ==> !BgCandidate(s, b)
    ensures r.None? ==> forall b: nat :: q + |StyleOpen| <= b < hi ==> !BgCandidate(s, b)
    decreases hi
  {
    if hi == q + |StyleOpen| then None
    else if BgCandidate(s, hi - 1) then Some(hi - 1)
    else LastBg(s, q, hi - 1)
  }

  /** The declaration the engine settles on inside the style opened at `q`. */
  function BgInStyle(s: string, q: nat): (r: Option<nat>)
    requires q + |StyleOpen| <= |s|
    ensures r.Some? ==> DeclInStyle(s, q, r.value)
    ensures r.Some? ==> forall b: nat :: DeclInStyle(s, q, b) ==> b <= r.value
    ensures r.None? ==> forall b: nat :: !DeclInStyle(s, q, b)
  {
    DeclInStyleByQuote(s, q);
    var fq := FirstFrom(s, '"', q + |StyleOpen|);
    if fq == |s| then None else LastBg(s, q, fq)
  }

  /** The last `style="` in `[p + |TrOpen|, hi)` holding a declaration. */
  function LastStyle(s: string, p: nat, hi: nat): (r: Option<BgSite>)
    requires p + |TrOpen| <= hi <= |s|
    ensures r.Some? ==> r.value.tr == p && p + |TrOpen| <= r.value.style < hi
    ensures r.Some? ==> AtCi(s, r.value.style, StyleOpen) && DeclInStyle(s, r.value.style, r.value.decl)
    ensures r.Some? ==> forall b: nat :: DeclInStyle(s, r.value.style, b) ==> b <= r.value.decl
    ensures r.Some? ==> forall q: nat, b: nat :: r.value.style < q < hi && AtCi(s, q, StyleOpen) ==> !DeclInStyle(s, q, b)
    ensures r.None? ==> forall q: nat, b: nat :: p + |TrOpen| <= q < hi && AtCi(s, q, StyleOpen) ==> !DeclInStyle(s, q, b)
    decreases hi
  {
    if hi == p + |TrOpen| then None
    else
      var q := hi - 1;
      if AtCi(s, q, StyleOpen) && BgInStyle(s, q).Some? then Some(BgSite(p, q, BgInStyle(s, q).value))
      else LastStyle(s, p, hi - 1)
  }

  lemma StyleInTagBeforeGt(s: string, p: nat)
    requires AtCi(s, p, TrOpen)
    ensures forall q: nat :: StyleInTag(s, p, q) <==>
      p + |TrOpen| <= q < FirstFrom(s, '>', p + |TrOpen|) && AtCi(s, q, StyleOpen)
  {
    var g := FirstFrom(s, '>', p + |TrOpen|);
    forall q | p + |TrOpen| <= q && AtCi(s, q, StyleOpen)
      ensures NoChar(s, p + |TrOpen|, q, '>') <==> q < g
    {
      AtCiAvoids(s, q, StyleOpen, '>');
    }
  }

  /** The match, if any, whose `<tr` is at `p`. */
  function MatchAtTr(s: string, p: nat): (r: Option<BgSite>)
    requires AtCi(s, p, TrOpen)
    ensures r.Some? ==> r.value.tr == p && BgMatch(s, p, r.value.style, r.value.decl)
    ensures r.Some? ==> forall q: nat, b: nat :: BgMatch(s, p, q, b) ==> Preferred(r.value, p, q, b)
    ensures r.None? ==> forall q: nat, b: nat :: !BgMatch(s, p, q, b)
  {
    StyleInTagBeforeGt(s, p);
    LastStyle(s, p, FirstFrom(s, '>', p + |TrOpen|))
  }

  /** The first match of rewrite 1 whose `<tr` is at or after `from`. */
  function FindBg(s: string, from: nat): (r: Option<BgSite>)
    requires from <= |s|
    ensures r.Some? ==> from <= r.value.tr && BgMatch(s, r.value.tr, r.value.style, r.value.decl)
    ensures r.Some? ==> forall p: nat, q: nat, b: nat :: from <= p && BgMatch(s, p, q, b) ==> Preferred(r.value, p, q, b)
    ensures r.None? ==> forall p: nat, q: nat, b: nat :: from <= p ==> !BgMatch(s, p, q, b)
    decreases |s| - from
  {
    if from == |s| then None
    else if AtCi(s, from, TrOpen) && MatchAtTr(s, from).Some? then MatchAtTr(s, from)
    else FindBg(s, from + 1)
  }

  /** End of the text `$2` captures: the non-stop run after the colon and one
      optional `;`. */
  function DeclEnd(s: string, b: nat): (e: nat)
    requires b + |BgDecl| <= |s|
    ensures b + |BgDecl| <= e <= |s|
    ensures forall k :: b + |BgDecl| <= k < e ==> !IsStop(s[k]) || (k == e - 1 && s[k] == ';')
    ensures e == |s| || s[e - 1] == ';' || (IsStop(s[e]) && s[e] != ';')
  {
    var e := FirstStop(s, b + |BgDecl|);
    if e < |s| && s[e] == ';' then e + 1 else e
  }

  /** The first rewrite: with no match the text is returned unchanged;
      otherwise exactly the one declaration the engine matched is cut out,
      a non-empty span beginning with `background-color:` that stops at the
      first `;`, `}`, `"` or `'` after the colon, taking a `;` with it. */
  function RemoveBackground(s: string): (r: string)
    ensures FindBg(s, 0).None? ==> r == s
    ensures FindBg(s, 0).Some? ==>
      var b := FindBg(s, 0).value.decl;
      var e := DeclEnd(s, b);
      && b + |BgDecl| + 1 <= e
      && r == s[..b] + s[e..]
      && AtCi(s, b, BgDecl)
      && (forall k :: b + |BgDecl| <= k < e - 1 ==> !IsStop(s[k]))
      && (e == |s| || s[e - 1] == ';' || (IsStop(s[e]) && s[e] != ';'))
      && |r| < |s|
  {
    match FindBg(s, 0)
    case None => s
    case Some(m) => s[..m.decl] + s[DeclEnd(s, m.decl)..]
  }

  // ---------------------------------------------------------------------
  // Rewrite 2: promotion of the first row's cells.
  // ---------------------------------------------------------------------

  /** Where the first row block sits: its `<tr`, the `>` closing that tag, and
      the `</tr>` the lazy `[\s\S]*?` stops at. */
  datatype RowSite = RowSite(tr: nat, gt: nat, close: nat)

  /** `/<tr([^>]*)>([\s\S]*?)<\/tr>/i` matches at `p` with the tag closed at
      `g` and the block closed at `c`. */
  predicate RowMatch(s: string, p: nat, g: nat, c: nat) {
    && AtCi(s, p, TrOpen)
    && p + |TrOpen| <= g < |s| && s[g] == '>' && NoChar(s, p + |TrOpen|, g, '>')
    && g + 1 <= c && AtCi(s, c, TrClose)
    && forall k :: g + 1 <= k < c ==> !AtCi(s, k, TrClose)
  }

  /** Index of the first `</tr>` at or after `i`, or `|s|`. */
  function FirstClose(s: string, i: nat): (c: nat)
    requires i <= |s|
    ensures i <= c <= |s|
    ensures forall k :: i <= k < c ==> !AtCi(s, k, TrClose)
    ensures c < |s| ==> AtCi(s, c, TrClose)
    decreases |s| - i
  {
    if i == |s| || AtCi(s, i, TrClose) then i else FirstClose(s, i + 1)
  }

  /** The first row block starting at or after `from`. */
  function FindRow(s: string, from: nat): (r: Option<RowSite>)
    requires from <= |s|
    ensures r.Some? ==> from <= r.value.tr && RowMatch(s, r.value.tr, r.value.gt, r.value.close)
    ensures r.Some? ==> forall p: nat, g: nat, c: nat :: from <= p && RowMatch(s, p, g, c) ==>
      r.value.tr < p || (r.value.tr == p && r.value.gt == g && r.value.close == c)
    ensures r.None? ==> forall p: nat, g: nat, c: nat :: from <= p ==> !RowMatch(s, p, g, c)
    decreases |s| - from
  {
    if from + |TrOpen| > |s| then None
    else if AtCi(s, from, TrOpen) && FirstFrom(s, '>', from + |TrOpen|) < |s|
         && FirstClose(s, FirstFrom(s, '>', from + |TrOpen|) + 1) < |s| then
      var g := FirstFrom(s, '>', from + |TrOpen|);
      Some(RowSite(from, g, FirstClose(s, g + 1)))
    else FindRow(s, from + 1)
  }

  const BoldWord := "bold"
  const CellOpen := "<td"
  const CellClose := "</td>"
  const HeadOpen := "<th"
  const HeadClose := "</th>"

  /** `/font-weight:\s*bold/i` matches in `c` with the property name at `k`
      and the word `bold` at `j`. */
  predicate BoldAt(c: string, k: nat, j: nat) {
    && AtCi(c, k, BoldDecl) && k + |BoldDecl| <= j <= |c|
    && SpaceBetween(c, k + |BoldDecl|, j) && AtCi(c, j, BoldWord)
  }

  /** The white space run is determined: a bold match at `k` exists exactly
      when `bold` follows the spaces after the colon. */
  lemma BoldAtSkip(c: string, k: nat)
    requires k + |BoldDecl| <= |c|
    ensures (exists j: nat :: BoldAt(c, k, j)) <==>
      AtCi(c, k, BoldDecl) && AtCi(c, SkipSpace(c, k + |BoldDecl|), BoldWord)
  {
    var m := SkipSpace(c, k + |BoldDecl|);
    if AtCi(c, k, BoldDecl) && AtCi(c, m, BoldWord) {
      assert BoldAt(c, k, m);
    }
    forall j: nat | BoldAt(c, k, j) ensures j == m {
      assert Lower(c[j + 0]) == BoldWord[0];
      assert c[j] == 'b' || c[j] == 'B';
      assert !IsJsSpace(c[j]);
    }
  }

  /** Whether the bold pattern occurs at or after `i`. */
  function HasBoldFrom(c: string, i: nat): (r: bool)
    requires i <= |c|
    ensures r <==> exists k: nat, j: nat :: i <= k && BoldAt(c, k, j)
    decreases |c| - i
  {
    if i + |BoldDecl| > |c| then false
    else
      BoldAtSkip(c, i);
      if AtCi(c, i, BoldDecl) && AtCi(c, SkipSpace(c, i + |BoldDecl|), BoldWord) then true
      else HasBoldFrom(c, i + 1)
  }

  /** `/font-weight:\s*bold/i.test(c)`. */
  predicate HasBold(c: string) {
    HasBoldFrom(c, 0)
  }

  /** A promotion changes characters in one way only: a `d` of `td` becomes
      the `h` of `th`; every other character keeps its letter, up to case. */
  predicate CellChar(a: char, b: char) {
    Lower(b) == Lower(a) || (Lower(a) == 'd' && b == 'h')
  }

  lemma CellSubstituted(a: char, b: char, pat: string, rep: string)
    requires (pat, rep) == (CellOpen, HeadOpen) || (pat, rep) == (CellClose, HeadClose)
    requires Substituted(a, b, pat, rep)
    ensures CellChar(a, b)
  {
    if a != b {
      var m :| 0 <= m < |pat| && Lower(a) == pat[m] && b == rep[m];
      assert Lower(b) == Lower(a) || (pat[m] == 'd' && rep[m] == 'h');
    }
  }

  /** An `h` is not part of `</td>`, so the second replacement keeps it. */
  lemma CloseKeepsH(a: char, b: char)
    requires Substituted(a, b, CellClose, HeadClose)
    ensures a == 'h' ==> b == 'h'
  {
    assert forall m :: 0 <= m < |CellClose| ==> CellClose[m] != 'h';
  }

  /** The character at `k` of `r` is the `<th` or `</th>` counterpart of a
      character of a `<td` or `</td>` occurring in `content`. */
  predicate CellEditAt(content: string, r: string, k: nat) {
    ReplacedAt(content, r, k, CellOpen, HeadOpen) || ReplacedAt(content, r, k, CellClose, HeadClose)
  }

  /** What the `<td` replacement can do to one character: write the `t` of
      `<th` over a `T` that follows a `<`, or write its `h`. */
  lemma OpenEdit(content: string, r1: string, j: nat)
    requires j < |content| == |r1|
    requires r1[j] != content[j] ==> ReplacedAt(content, r1, j, CellOpen, HeadOpen)
    ensures r1[j] != content[j] ==> (r1[j] == 't' && j > 0 && content[j - 1] == '<') || r1[j] == 'h'
  {
    if r1[j] != content[j] {
      var i: nat :| i <= j < i + |CellOpen| && AtCi(content, i, CellOpen) && r1[j] == HeadOpen[j - i];
      assert Lower(content[i + 0]) == CellOpen[0];
      LowerNonLetter(content[i], '<');
    }
  }

  /** The `<td` replacement creates no `</td>`: one found afterwards was
      already there. */
  lemma CloseSurvives(content: string, r1: string, i: nat)
    requires |r1| == |content|
    requires forall j :: 0 <= j < |content| && r1[j] != content[j] ==> ReplacedAt(content, r1, j, CellOpen, HeadOpen)
    requires AtCi(r1, i, CellClose)
    ensures AtCi(content, i, CellClose)
  {
    forall m | 0 <= m < |CellClose| ensures Lower(content[i + m]) == CellClose[m] {
      OpenEdit(content, r1, i + m);
      OpenEdit(content, r1, i + 1);
      assert Lower(r1[i + m]) == CellClose[m];
      assert Lower(r1[i + 1]) == CellClose[1];
    }
  }

  /** A character the two replacements change lies in a cell tag of the
      original content. */
  lemma PromotedCharAt(content: string, k: nat)
    requires k < |content|
    ensures var r2 := ReplaceAllCi(ReplaceAllCi(content, CellOpen, HeadOpen), CellClose, HeadClose);
      r2[k] != content[k] ==> CellEditAt(content, r2, k)
  {
    var r1 := ReplaceAllCi(content, CellOpen, HeadOpen);
    var r2 := ReplaceAllCi(r1, CellClose, HeadClose);
    ReplaceWithinOccurrences(content, CellOpen, HeadOpen);
    ReplacedAtIndex(r1, CellClose, HeadClose, k);
    if r2[k] != content[k] {
      if r2[k] != r1[k] {
        var i: nat :| i <= k < i + |CellClose| && AtCi(r1, i, CellClose) && r2[k] == HeadClose[k - i];
        CloseSurvives(content, r1, i);
        assert ReplacedAt(content, r2, k, CellClose, HeadClose);
      } else {
        var i: nat :| i <= k < i + |CellOpen| && AtCi(content, i, CellOpen) && r1[k] == HeadOpen[k - i];
        assert ReplacedAt(content, r2, k, CellOpen, HeadOpen);
      }
    }
  }

  lemma PromotedChars(content: string)
    ensures var r2 := ReplaceAllCi(ReplaceAllCi(content, CellOpen, HeadOpen), CellClose, HeadClose);
      forall k :: 0 <= k < |r2| && r2[k] != content[k] ==> CellEditAt(content, r2, k)
  {
    forall k | 0 <= k < |content| {
      PromotedCharAt(content, k);
    }
  }

  /** The `<td` replacement keeps each character up to case, except that it
      may write the `h` of `<th` over the `d` of a `<td`. */
  lemma OpenKeepsLower(content: string, r1: string, k: nat)
    requires k < |content| == |r1|
    requires r1[k] != content[k] ==> ReplacedAt(content, r1, k, CellOpen, HeadOpen)
    ensures Lower(r1[k]) == Lower(content[k]) || (Lower(content[k]) == 'd' && k >= 2 && Lower(content[k - 2]) == '<')
  {
    if r1[k] != content[k] {
      var j: nat :| j <= k < j + |CellOpen| && AtCi(content, j, CellOpen) && r1[k] == HeadOpen[k - j];
      assert Lower(content[j + (k - j)]) == CellOpen[k - j];
      assert Lower(content[j + 0]) == CellOpen[0];
      assert Lower(HeadOpen[0]) == CellOpen[0] && Lower(HeadOpen[1]) == CellOpen[1];
    }
  }

  /** The `<td` replacement leaves every `</td>` of the content in place. */
  lemma CloseKept(content: string, r1: string, i: nat)
    requires |r1| == |content|
    requires forall j :: 0 <= j < |content| && r1[j] != content[j] ==> ReplacedAt(content, r1, j, CellOpen, HeadOpen)
    requires AtCi(content, i, CellClose)
    ensures AtCi(r1, i, CellClose)
  {
    forall m | 0 <= m < |CellClose| ensures Lower(r1[i + m]) == CellClose[m] {
      OpenKeepsLower(content, r1, i + m);
      assert Lower(content[i + m]) == CellClose[m];
      assert Lower(content[i + 1]) == CellClose[1];
    }
  }

  /** The characters of `<th` are not in `</td>` except where `</th>` has
      the same character, so the `</td>` replacement keeps them. */
  lemma HeadCharKept(a: char, b: char)
    requires a in HeadOpen && Substituted(a, b, CellClose, HeadClose)
    ensures b == a
  {
    assert a == '<' || a == 't' || a == 'h';
  }

  /** Both cell tags start with a `<` that does not recur in them, so
      their occurrences never overlap. */
  lemma CellTagsHeadUnique()
    ensures HeadUnique(CellOpen) && HeadUnique(CellClose)
  {
  }

  /** Every character of a `<td` of the content becomes the corresponding
      character of `<th`. */
  lemma PromotedOpenAt(content: string, i: nat, k: nat)
    requires AtCi(content, i, CellOpen) && i <= k < i + |CellOpen|
    ensures var r2 := ReplaceAllCi(ReplaceAllCi(content, CellOpen, HeadOpen), CellClose, HeadClose);
      r2[k] == HeadOpen[k - i]
  {
    var r1 := ReplaceAllCi(content, CellOpen, HeadOpen);
    CellTagsHeadUnique();
    ReplaceCoversOccurrence(content, CellOpen, HeadOpen, i, k);
    ReplaceSubstitutes(r1, CellClose, HeadClose);
    HeadCharKept(r1[k], ReplaceAllCi(r1, CellClose, HeadClose)[k]);
  }

  /** Every character of a `</td>` of the content becomes the corresponding
      character of `</th>`. */
  lemma PromotedCloseAt(content: string, i: nat, k: nat)
    requires AtCi(content, i, CellClose) && i <= k < i + |CellClose|
    ensures var r2 := ReplaceAllCi(ReplaceAllCi(content, CellOpen, HeadOpen), CellClose, HeadClose);
      r2[k] == HeadClose[k - i]
  {
    var r1 := ReplaceAllCi(content, CellOpen, HeadOpen);
    ReplaceWithinOccurrences(content, CellOpen, HeadOpen);
    CloseKept(content, r1, i);
    CellTagsHeadUnique();
    ReplaceCoversOccurrence(r1, CellClose, HeadClose, i, k);
  }

  lemma PromotedOccurrences(content: string)
    ensures var r2 := ReplaceAllCi(ReplaceAllCi(content, CellOpen, HeadOpen), CellClose, HeadClose);
      && (forall i: nat, k :: AtCi(content, i, CellOpen) && i <= k < i + |CellOpen| ==> r2[k] == HeadOpen[k - i])
      && (forall i: nat, k :: AtCi(content, i, CellClose) && i <= k < i + |CellClose| ==> r2[k] == HeadClose[k - i])
  {
    forall i: nat, k | AtCi(content, i, CellOpen) && i <= k < i + |CellOpen| {
      PromotedOpenAt(content, i, k);
    }
    forall i: nat, k | AtCi(content, i, CellClose) && i <= k < i + |CellClose| {
      PromotedCloseAt(content, i, k);
    }
  }

  /** `content.replace(/<td/gi, '<th').replace(/<\/td>/gi, '</th>')`: the
      length is kept, no cell tag of either kind is left, only `d` to `h`
      changes happen, each changed character lies in a `<td` or `</td>` of
      the content, every `<td` and `</td>` of the content, in any case,
      becomes exactly `<th` and `</th>`, and content without cell tags is
      returned as is. */
  function PromoteCells(content: string): (r: string)
    ensures |r| == |content|
    ensures NoCiIn(r, CellOpen) && NoCiIn(r, CellClose)
    ensures forall k :: 0 <= k < |r| ==> CellChar(content[k], r[k])
    ensures forall k :: 0 <= k < |r| && r[k] != content[k] ==> CellEditAt(content, r, k)
    ensures forall i: nat, k :: AtCi(content, i, CellOpen) && i <= k < i + |CellOpen| ==> r[k] == HeadOpen[k - i]
    ensures forall i: nat, k :: AtCi(content, i, CellClose) && i <= k < i + |CellClose| ==> r[k] == HeadClose[k - i]
    ensures NoCiIn(content, CellOpen) && NoCiIn(content, CellClose) ==> r == content
  {
    PromotedChars(content);
    PromotedOccurrences(content);
    var r1 := ReplaceAllCi(content, CellOpen, HeadOpen);
    var r2 := ReplaceAllCi(r1, CellClose, HeadClose);
    assert Lower(HeadOpen[2]) != CellOpen[2] && Lower(HeadClose[3]) != CellClose[3];
    ReplaceLeavesNone(content, CellOpen, CellOpen, HeadOpen);
    ReplaceLeavesNone(r1, CellOpen, CellClose, HeadClose);
    ReplaceLeavesNone(r1, CellClose, CellClose, HeadClose);
    ReplaceSubstitutes(content, CellOpen, HeadOpen);
    ReplaceSubstitutes(r1, CellClose, HeadClose);
    assert forall k :: 0 <= k < |r2| ==> CellChar(content[k], r2[k]) by {
      forall k | 0 <= k < |r2| ensures CellChar(content[k], r2[k]) {
        CellSubstituted(content[k], r1[k], CellOpen, HeadOpen);
        CellSubstituted(r1[k], r2[k], CellClose, HeadClose);
        CloseKeepsH(r1[k], r2[k]);
      }
    }
    r2
  }

  /** The row block `m` rebuilt around new content: `<tr` + attributes +
      `>` + content + `</tr>`, with the surrounding text kept. */
  function Rebuild(s: string, m: RowSite, content: string): string
    requires m.tr + |TrOpen| <= m.gt + 1 <= m.close && m.close + |TrClose| <= |s|
  {
    s[..m.tr] + TrOpen + s[m.tr + |TrOpen|..m.gt + 1] + content + TrClose + s[m.close + |TrClose|..]
  }

  lemma RebuiltRow(s: string, m: RowSite, promoted: string)
    requires m.tr + |TrOpen| <= m.gt + 1 <= m.close && m.close + |TrClose| <= |s| && |promoted| == m.close - (m.gt + 1)
    ensures var r := Rebuild(s, m, promoted);
      && |r| == |s|
      && (forall k :: 0 <= k < |s| && (k < m.tr || m.close + |TrClose| <= k) ==> r[k] == s[k])
      && r[m.gt + 1..m.close] == promoted && r[m.tr..m.tr + |TrOpen|] == TrOpen
      && r[m.close..m.close + |TrClose|] == TrClose && r[m.tr + |TrOpen|..m.gt + 1] == s[m.tr + |TrOpen|..m.gt + 1]
  {
  }

  /** Every character of the rebuilt block is a `CellChar` image of the
      original one. */
  lemma RebuiltRowChars(s: string, m: RowSite, content: string, promoted: string)
    requires m.tr + |TrOpen| <= m.gt + 1 <= m.close && m.close + |TrClose| <= |s|
    requires AtCi(s, m.tr, TrOpen) && AtCi(s, m.close, TrClose) && content == s[m.gt + 1..m.close]
    requires |promoted| == |content| && forall k :: 0 <= k < |promoted| ==> CellChar(content[k], promoted[k])
    ensures var r := Rebuild(s, m, promoted);
      forall k :: m.tr <= k < m.close + |TrClose| ==> CellChar(s[k], r[k])
  {
    forall k | m.tr <= k < m.close + |TrClose| ensures CellChar(s[k], Rebuild(s, m, promoted)[k]) {
      RebuiltRowChar(s, m, content, promoted, k);
    }
  }

  lemma RebuiltRowChar(s: string, m: RowSite, content: string, promoted: string, k: nat)
    requires m.tr + |TrOpen| <= m.gt + 1 <= m.close && m.close + |TrClose| <= |s|
    requires AtCi(s, m.tr, TrOpen) && AtCi(s, m.close, TrClose) && content == s[m.gt + 1..m.close]
    requires |promoted| == |content| && forall k :: 0 <= k < |promoted| ==> CellChar(content[k], promoted[k])
    requires m.tr <= k < m.close + |TrClose|
    ensures CellChar(s[k], Rebuild(s, m, promoted)[k])
  {
    var p, g, c := m.tr, m.gt, m.close;
    var r := Rebuild(s, m, promoted);
    RebuiltRow(s, m, promoted);
    TagsLowerCase();
    if k < p + |TrOpen| {
      LiteralChar(s, r, p, TrOpen, k);
    } else if k <= g {
      assert r[k] == r[p + |TrOpen|..g + 1][k - (p + |TrOpen|)] == s[k];
    } else if k < c {
      assert r[k] == promoted[k - (g + 1)] && s[k] == content[k - (g + 1)];
    } else {
      LiteralChar(s, r, c, TrClose, k);
    }
  }

  /** Writing a lower-case literal over a case-insensitive occurrence of it
      keeps every letter up to case. */
  lemma LiteralChar(s: string, r: string, p: nat, lit: string, k: nat)
    requires p <= k < p + |lit| && p + |lit| <= |s| && p + |lit| <= |r|
    requires AtCi(s, p, lit) && r[p..p + |lit|] == lit
    requires forall i :: 0 <= i < |lit| ==> Lower(lit[i]) == lit[i]
    ensures CellChar(s[k], r[k])
  {
    assert r[k] == r[p..p + |lit|][k - p];
    assert Lower(s[p + (k - p)]) == lit[k - p];
  }

  /** The tag names are written in lower case. */
  lemma TagsLowerCase()
    ensures forall i :: 0 <= i < |TrOpen| ==> Lower(TrOpen[i]) == TrOpen[i]
    ensures forall i :: 0 <= i < |TrClose| ==> Lower(TrClose[i]) == TrClose[i]
  {
  }

  /** The replacement callback applied to the row block `m`. */
  function PromoteRow(s: string, m: RowSite): (r: string)
    requires RowMatch(s, m.tr, m.gt, m.close)
    ensures |r| == |s|
    ensures !HasBold(s[m.gt + 1..m.close]) ==> r == s
    ensures forall k :: 0 <= k < |s| && (k < m.tr || m.close + |TrClose| <= k) ==> r[k] == s[k]
    ensures forall k :: 0 <= k < |s| && m.tr <= k < m.close + |TrClose| ==> CellChar(s[k], r[k])
    ensures r[m.tr + |TrOpen|..m.gt + 1] == s[m.tr + |TrOpen|..m.gt + 1]
    ensures HasBold(s[m.gt + 1..m.close]) ==> r[m.gt + 1..m.close] == PromoteCells(s[m.gt + 1..m.close])
    ensures HasBold(s[m.gt + 1..m.close]) ==>
      && NoCiIn(r[m.gt + 1..m.close], CellOpen) && NoCiIn(r[m.gt + 1..m.close], CellClose)
      && r[m.tr..m.tr + |TrOpen|] == TrOpen && r[m.close..m.close + |TrClose|] == TrClose
  {
    var content := s[m.gt + 1..m.close];
    if !HasBold(content) then s
    else
      var promoted := PromoteCells(content);
      RebuiltRow(s, m, promoted);
      RebuiltRowChars(s, m, content, promoted);
      Rebuild(s, m, promoted)
  }

  /** The second rewrite: the first row block, if any, goes through
      `PromoteRow`; without one the text is returned unchanged. */
  function PromoteHeaderRow(s: string): (r: string)
    ensures |r| == |s|
    ensures FindRow(s, 0).None? ==> r == s
    ensures FindRow(s, 0).Some? ==> r == PromoteRow(s, FindRow(s, 0).value)
  {
    match FindRow(s, 0)
    case None => s
    case Some(m) => PromoteRow(s, m)
  }

  /** `cleanHtmlForPdf`: the background rewrite, then the row promotion. A
      falsy (empty) value is returned as it is. */
  function CleanHtmlForPdf(html: string): (r: string)
    ensures |r| <= |html|
    ensures |r| == |html| <==> FindBg(html, 0).None?
    ensures (FindBg(html, 0).None? && FindRow(html, 0).None?) ==> r == html
  {
    if html == "" then html
    else PromoteHeaderRow(RemoveBackground(html))
  }

  /** Text without any `<tr` (in any case) passes through unchanged. */
  lemma CleanWithoutRows(html: string)
    ensures NoCiIn(html, TrOpen) ==> CleanHtmlForPdf(html) == html
  {
    if NoCiIn(html, TrOpen) {
      assert FindBg(html, 0).None?;
      assert FindRow(html, 0).None?;
    }
  }

  /** A lower-case pattern placed between two strings occurs there. */
  lemma CiInfix(a: string, pat: string, b: string)
    requires forall k :: 0 <= k < |pat| ==> Lower(pat[k]) == pat[k]
    ensures AtCi(a + pat + b, |a|, pat)
  {
    forall k | 0 <= k < |pat| ensures Lower((a + pat + b)[|a| + k]) == pat[k] {
      assert (a + pat + b)[|a| + k] == pat[k];
    }
  }

  /** Any match of rewrite 1 makes the cleaned text shorter. */
  lemma BgMatchIsCut(html: string, p: nat, q: nat, b: nat)
    requires BgMatch(html, p, q, b)
    ensures |CleanHtmlForPdf(html)| < |html|
  {
  }

  /** The background rewrite is not confined to the first row: a styled
      `<tr` carrying a declaration always makes the text shorter, and when
      no earlier text carries a `background-color:` the declaration cut is
      one of this row's, the text before the row coming through intact. */
  lemma LaterRowBackground(pre: string, color: string)
    requires color != [] && !IsStop(color[0])
    ensures var html := pre + TrOpen + " " + StyleOpen + BgDecl + color + "\">";
      |CleanHtmlForPdf(html)| < |html|
    ensures var html := pre + TrOpen + " " + StyleOpen + BgDecl + color + "\">";
      NoCiIn(pre, BgDecl) ==>
        && FindBg(html, 0).Some? && FindBg(html, 0).value.decl >= |pre|
        && RemoveBackground(html)[..|pre|] == pre
  {
    var html := pre + TrOpen + " " + StyleOpen + BgDecl + color + "\">";
    StyledRowMatches(pre, color);
    BgMatchIsCut(html, |pre|, |pre| + |TrOpen| + 1, |pre| + |TrOpen| + 1 + |StyleOpen|);
    if NoCiIn(pre, BgDecl) {
      BgMatchIsFound(html, |pre|, |pre| + |TrOpen| + 1, |pre| + |TrOpen| + 1 + |StyleOpen|);
      CutAfterPrefix(pre, html);
    }
  }

  /** Any match of rewrite 1 means the scan finds one. */
  lemma BgMatchIsFound(html: string, p: nat, q: nat, b: nat)
    requires BgMatch(html, p, q, b)
    ensures FindBg(html, 0).Some?
  {
  }

  /** When the first declaration of the text lies past `pre`, rewrite 1
      leaves `pre` alone. */
  lemma CutAfterPrefix(pre: string, html: string)
    requires |pre| < |html| && html[..|pre|] == pre && html[|pre|] == '<'
    requires NoCiIn(pre, BgDecl) && FindBg(html, 0).Some?
    ensures FindBg(html, 0).value.decl >= |pre|
    ensures RemoveBackground(html)[..|pre|] == pre
  {
    var b := FindBg(html, 0).value.decl;
    DeclAfterPrefix(pre, html, b);
    var r := RemoveBackground(html);
    assert r == html[..b] + html[DeclEnd(html, b)..];
    assert r[..|pre|] == html[..b][..|pre|];
  }

  /** An occurrence of `background-color:` in text that starts with `pre`
      and continues with a `<` cannot begin inside `pre` when `pre` has none
      of its own. */
  lemma DeclAfterPrefix(pre: string, html: string, b: nat)
    requires |pre| < |html| && html[..|pre|] == pre && html[|pre|] == '<'
    requires NoCiIn(pre, BgDecl) && AtCi(html, b, BgDecl)
    ensures b >= |pre|
  {
    if b + |BgDecl| <= |pre| {
      forall k | 0 <= k < |BgDecl| ensures Lower(pre[b + k]) == BgDecl[k] {
        assert pre[b + k] == html[..|pre|][b + k];
      }
      assert AtCi(pre, b, BgDecl);
    } else {
      assert '<' !in BgDecl;
      AtCiAvoids(html, b, BgDecl, '<');
    }
  }

  /** The row `<tr style="background-color:…">` after any `pre` matches
      rewrite 1, with the `<tr` right after `pre`, the `style="` one space
      later and the declaration straight after the opening quote. */
  lemma StyledRowMatches(pre: string, color: string)
    requires color != [] && !IsStop(color[0])
    ensures var html := pre + TrOpen + " " + StyleOpen + BgDecl + color + "\">";
      BgMatch(html, |pre|, |pre| + |TrOpen| + 1, |pre| + |TrOpen| + 1 + |StyleOpen|)
    ensures var html := pre + TrOpen + " " + StyleOpen + BgDecl + color + "\">";
      html[..|pre|] == pre && html[|pre|] == '<' && |pre| < |html|
  {
    var html := pre + TrOpen + " " + StyleOpen + BgDecl + color + "\">";
    StyledRowParts(pre, color);
    var p := |pre|;
    var q := p + |TrOpen| + 1;
    var v := q + |StyleOpen| + |BgDecl|;
    assert NoChar(html, p + |TrOpen|, q, '>');
    assert StyleInTag(html, p, q);
    assert QuoteAfter(html, v);
  }

  /** Where the pieces of the styled row sit. */
  lemma StyledRowParts(pre: string, color: string)
    requires color != []
    ensures var html := pre + TrOpen + " " + StyleOpen + BgDecl + color + "\">";
      var q := |pre| + |TrOpen| + 1;
      && html[..|pre|] == pre && |pre| < |html|
      && AtCi(html, |pre|, TrOpen) && html[q - 1] == ' '
      && AtCi(html, q, StyleOpen) && AtCi(html, q + |StyleOpen|, BgDecl)
      && html[q + |StyleOpen| + |BgDecl|] == color[0] && html[|html| - 2] == '"'
  {
    var tail := color + "\">";
    var html := pre + TrOpen + " " + StyleOpen + BgDecl + tail;
    assert html == pre + TrOpen + " " + StyleOpen + BgDecl + color + "\">";
    assert forall k :: 0 <= k < |TrOpen| ==> Lower(TrOpen[k]) == TrOpen[k];
    assert forall k :: 0 <= k < |StyleOpen| ==> Lower(StyleOpen[k]) == StyleOpen[k];
    assert forall k :: 0 <= k < |BgDecl| ==> Lower(BgDecl[k]) == BgDecl[k];
    assert html == pre + TrOpen + (" " + StyleOpen + BgDecl + tail);
    CiInfix(pre, TrOpen, " " + StyleOpen + BgDecl + tail);
    assert html == (pre + TrOpen + " ") + StyleOpen + (BgDecl + tail);
    CiInfix(pre + TrOpen + " ", StyleOpen, BgDecl + tail);
    assert html == (pre + TrOpen + " " + StyleOpen) + BgDecl + tail;
    CiInfix(pre + TrOpen + " " + StyleOpen, BgDecl, tail);
  }
}
