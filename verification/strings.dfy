/** String primitives shared by the template and the Puppeteer helpers:
    exact and ASCII-case-insensitive substring tests, the literal global
    replacements the source performs with `String.prototype.replace`, and
    JavaScript's `trim`. Strings are `seq<char>`; every pattern literal used by
    the source is ASCII, so `/i` matching is ASCII case folding. */
module Strings {

  /** ASCII lower-casing, the folding a non-unicode `/i` regex applies to an
      ASCII pattern letter. */
  function Lower(c: char): (r: char)
    ensures 'A' <= c <= 'Z' ==> r as int == c as int + 32
    ensures !('A' <= c <= 'Z') ==> r == c
    ensures 'a' <= r <= 'z' <==> ('a' <= c <= 'z' || 'A' <= c <= 'Z')
  {
    if 'A' <= c <= 'Z' then (c as int + 32) as char else c
  }

  /** A character that `Lower` leaves alone can only match itself. */
  lemma LowerNonLetter(c: char, d: char)
    requires Lower(c) == d && !('a' <= d <= 'z')
    ensures c == d
  {
  }

  /** `pat` occurs in `s` at index `i`, exactly. */
  predicate At(s: string, i: nat, pat: string) {
    i + |pat| <= |s| && s[i..i + |pat|] == pat
  }

  /** `pat` (written in lower case) occurs in `s` at index `i`, ignoring ASCII case. */
  predicate AtCi(s: string, i: nat, pat: string) {
    i + |pat| <= |s| && forall k :: 0 <= k < |pat| ==> Lower(s[i + k]) == pat[k]
  }

  /** `s.includes(t)`: some index of `s` starts an occurrence of `t`. */
  function Includes(s: string, t: string): (r: bool)
    ensures r <==> exists i: nat :: i + |t| <= |s| && At(s, i, t)
    decreases |s|
  {
    if |s| < |t| then false
    else if s[..|t|] == t then (assert At(s, 0, t); true)
    else
      var r := Includes(s[1..], t);
      if r then
        var i: nat :| i + |t| <= |s[1..]| && At(s[1..], i, t);
        assert s[i + 1..i + 1 + |t|] == s[1..][i..i + |t|];
        assert At(s, i + 1, t);
        r
      else
        assert forall i: nat :: i + |t| <= |s| && At(s, i, t) ==> i == 0 || At(s[1..], i - 1, t) by {
          forall i: nat | i + |t| <= |s| && At(s, i, t) && i != 0
            ensures At(s[1..], i - 1, t)
          {
            assert s[1..][i - 1..i - 1 + |t|] == s[i..i + |t|];
          }
        }
        r
  }

  /** An occurrence inside a part is an occurrence inside the whole. */
  lemma IncludesInfix(a: string, t: string, b: string)
    ensures Includes(a + t + b, t)
  {
    assert (a + t + b)[|a|..|a| + |t|] == t;
    assert At(a + t + b, |a|, t);
  }

  /** Replace every occurrence of the character `c` by `rep`: the source's
      `s.replace(/\n/g, rep)` with `c == '\n'`. */
  function ReplaceChar(s: string, c: char, rep: string): (r: string)
    ensures c !in rep ==> c !in r
    ensures c !in s ==> r == s
    ensures forall x :: x in r ==> x in s || x in rep
    decreases |s|
  {
    if s == [] then []
    else if s[0] == c then rep + ReplaceChar(s[1..], c, rep)
    else [s[0]] + ReplaceChar(s[1..], c, rep)
  }

  /** Lines joined by a separator. */
  function Join(lines: seq<string>, sep: string): string
    decreases |lines|
  {
    if lines == [] then ""
    else if |lines| == 1 then lines[0]
    else lines[0] + sep + Join(lines[1..], sep)
  }

  lemma ReplaceCharAppend(a: string, b: string, c: char, rep: string)
    ensures ReplaceChar(a + b, c, rep) == ReplaceChar(a, c, rep) + ReplaceChar(b, c, rep)
    decreases |a|
  {
    if a == [] {
      assert a + b == b;
    } else {
      assert (a + b)[1..] == a[1..] + b;
      ReplaceCharAppend(a[1..], b, c, rep);
    }
  }

  /** Re-joining: replacing the separator character of a `c`-joined list of
      `c`-free lines yields the same lines joined by `rep`. */
  lemma {:induction false} ReplaceCharJoin(lines: seq<string>, c: char, rep: string)
    requires forall i :: 0 <= i < |lines| ==> c !in lines[i]
    ensures ReplaceChar(Join(lines, [c]), c, rep) == Join(lines, rep)
    decreases |lines|
  {
    if lines == [] {
    } else if |lines| == 1 {
    } else {
      var tail := Join(lines[1..], [c]);
      assert Join(lines, [c]) == lines[0] + [c] + tail;
      ReplaceCharAppend(lines[0] + [c], tail, c, rep);
      ReplaceCharAppend(lines[0], [c], c, rep);
      assert ReplaceChar([c], c, rep) == rep;
      ReplaceCharJoin(lines[1..], c, rep);
    }
  }

  /** Replace every case-insensitive occurrence of `pat` (lower case) by
      `rep`, scanning left to right without overlap: a global `/pat/gi`
      replacement with a literal pattern. */
  function ReplaceAllCi(s: string, pat: string, rep: string): (r: string)
    requires pat != []
    ensures |pat| == |rep| ==> |r| == |s|
    ensures (forall i: nat :: i + |pat| <= |s| ==> !AtCi(s, i, pat)) ==> r == s
    decreases |s|
  {
    if |s| < |pat| then s
    else if AtCi(s, 0, pat) then rep + ReplaceAllCi(s[|pat|..], pat, rep)
    else
      assert forall i: nat :: i + |pat| <= |s[1..]| && AtCi(s[1..], i, pat) ==> AtCi(s, i + 1, pat);
      [s[0]] + ReplaceAllCi(s[1..], pat, rep)
  }

  /** No case-insensitive occurrence of `pat` anywhere in `s`. */
  predicate NoCiIn(s: string, pat: string) {
    forall i: nat :: i + |pat| <= |s| ==> !AtCi(s, i, pat)
  }

  lemma AtCiShift(a: string, b: string, i: nat, pat: string)
    requires i >= |a|
    ensures AtCi(a + b, i, pat) <==> AtCi(b, i - |a|, pat)
  {
    if i + |pat| <= |a + b| {
      forall j | i <= j < i + |pat| ensures (a + b)[j] == b[j - |a|] { }
    }
  }

  lemma AtCiSuffix(x: string, n: nat, i: nat, pat: string)
    requires n <= |x|
    ensures AtCi(x[n..], i, pat) <==> AtCi(x, i + n, pat)
  {
    assert x == x[..n] + x[n..];
    AtCiShift(x[..n], x[n..], i + n, pat);
  }

  /** Matching at the head of `[a] + v`: the first character, then the rest. */
  lemma AtCiCons(a: char, v: string, w: string)
    requires w != []
    ensures AtCi([a] + v, 0, w) <==> Lower(a) == w[0] && AtCi(v, 0, w[1..])
  {
    var u := [a] + v;
    if Lower(a) == w[0] && AtCi(v, 0, w[1..]) {
      forall k | 0 <= k < |w| ensures Lower(u[k]) == w[k] {
        if k > 0 {
          assert u[k] == v[k - 1];
          assert w[1..][k - 1] == w[k];
        }
      }
    }
    if AtCi(u, 0, w) {
      forall k | 0 <= k < |w| - 1 ensures Lower(v[k]) == w[1..][k] {
        assert u[k + 1] == v[k];
      }
    }
  }

  /** A replacement never turns a non-match into a match of a pattern `w`
      that avoids the first character of `rep`: the mismatch survives. */
  lemma {:induction false} ReplaceKeepsMismatch(u: string, w: string, pat: string, rep: string)
    requires pat != [] && rep != [] && w != []
    requires forall k :: 0 <= k < |w| ==> w[k] != Lower(rep[0])
    requires !AtCi(u, 0, w)
    ensures !AtCi(ReplaceAllCi(u, pat, rep), 0, w)
    decreases |u|
  {
    var r := ReplaceAllCi(u, pat, rep);
    if |u| < |pat| {
    } else if AtCi(u, 0, pat) {
      assert r == rep + ReplaceAllCi(u[|pat|..], pat, rep);
      assert r[0] == rep[0] && w[0] != Lower(rep[0]);
    } else {
      var rt := ReplaceAllCi(u[1..], pat, rep);
      assert r == [u[0]] + rt;
      assert u == [u[0]] + u[1..];
      AtCiCons(u[0], u[1..], w);
      AtCiCons(u[0], rt, w);
      if Lower(u[0]) == w[0] && |w| > 1 {
        ReplaceKeepsMismatch(u[1..], w[1..], pat, rep);
      }
    }
  }

  /** After a global replacement of `pat` by `rep`, no occurrence of `q` is
      left, provided `q` is `pat` itself or was absent to begin with, all three
      start with `<` and contain no other `<`, and `rep` does not start with
      `q`. */
  lemma {:induction false} ReplaceLeavesNone(x: string, q: string, pat: string, rep: string)
    requires |pat| == |rep| && 0 < |q| <= |rep|
    requires pat[0] == '<' && rep[0] == '<' && q[0] == '<'
    requires '<' !in pat[1..] && '<' !in rep[1..] && '<' !in q[1..]
    requires !AtCi(rep, 0, q)
    requires q == pat || NoCiIn(x, q)
    ensures NoCiIn(ReplaceAllCi(x, pat, rep), q)
    decreases |x|
  {
    var r := ReplaceAllCi(x, pat, rep);
    assert Lower(rep[0]) == '<';
    assert forall k :: 0 < k < |q| ==> q[k] != '<' by {
      forall k | 0 < k < |q| ensures q[k] != '<' { assert q[k] == q[1..][k - 1]; }
    }
    if |x| < |pat| {
    } else {
      var n := if AtCi(x, 0, pat) then |pat| else 1;
      var t := x[n..];
      if q != pat {
        forall i: nat | i + |q| <= |t| ensures !AtCi(t, i, q) { AtCiSuffix(x, n, i, q); }
      }
      ReplaceLeavesNone(t, q, pat, rep);
      var rt := ReplaceAllCi(t, pat, rep);
      var head := if n == |pat| then rep else [x[0]];
      assert r == head + rt;
      forall i: nat | i + |q| <= |r| ensures !AtCi(r, i, q) {
        if i >= |head| {
          AtCiShift(head, rt, i, q);
        } else if n == |pat| {
          if i == 0 {
            var k :| 0 <= k < |q| && Lower(rep[k]) != q[k];
            assert r[k] == rep[k];
          } else {
            assert r[i] == rep[i] && rep[i] == rep[1..][i - 1];
            assert Lower(r[i]) != '<';
          }
        } else {
          assert x == [x[0]] + t && r == [x[0]] + rt;
          AtCiCons(x[0], t, q);
          AtCiCons(x[0], rt, q);
          if Lower(x[0]) == q[0] && |q| > 1 {
            assert !AtCi(t, 0, q[1..]);
            ReplaceKeepsMismatch(t, q[1..], pat, rep);
          }
        }
      }
    }
  }

  /** `b` is `a`, or the replacement character for a pattern character
      that `a` matches case-insensitively. */
  predicate Substituted(a: char, b: char, pat: string, rep: string)
    requires |pat| == |rep|
  {
    a == b || exists m :: 0 <= m < |pat| && Lower(a) == pat[m] && b == rep[m]
  }

  /** A same-length global replacement changes characters only position by
      position, each into its counterpart in `rep`. */
  lemma ReplaceSubstitutes(s: string, pat: string, rep: string)
    requires pat != [] && |pat| == |rep|
    ensures forall k :: 0 <= k < |s| ==> Substituted(s[k], ReplaceAllCi(s, pat, rep)[k], pat, rep)
  {
    var r := ReplaceAllCi(s, pat, rep);
    forall k | 0 <= k < |s| ensures Substituted(s[k], r[k], pat, rep) {
      ReplacedAtIndex(s, pat, rep, k);
      if r[k] != s[k] {
        var i: nat :| i <= k < i + |pat| && AtCi(s, i, pat) && r[k] == rep[k - i];
        assert Lower(s[i + (k - i)]) == pat[k - i];
      }
    }
  }

  /** `r[k]` is the counterpart in `rep` of a character of an occurrence of
      `pat` in `s` that covers index `k`. */
  predicate ReplacedAt(s: string, r: string, k: nat, pat: string, rep: string)
    requires |pat| == |rep|
  {
    k < |r| && exists i: nat :: i <= k < i + |pat| && AtCi(s, i, pat) && r[k] == rep[k - i]
  }

  /** A same-length global replacement changes a character only inside an
      occurrence of `pat`, into the corresponding character of `rep`. */
  lemma ReplaceWithinOccurrences(s: string, pat: string, rep: string)
    requires pat != [] && |pat| == |rep|
    ensures forall k :: 0 <= k < |s| && ReplaceAllCi(s, pat, rep)[k] != s[k] ==>
      ReplacedAt(s, ReplaceAllCi(s, pat, rep), k, pat, rep)
  {
    forall k | 0 <= k < |s| {
      ReplacedAtIndex(s, pat, rep, k);
    }
  }

  /** `ReplaceWithinOccurrences` at one index. */
  lemma {:induction false} ReplacedAtIndex(s: string, pat: string, rep: string, k: nat)
    requires pat != [] && |pat| == |rep| && k < |s|
    ensures ReplaceAllCi(s, pat, rep)[k] != s[k] ==> ReplacedAt(s, ReplaceAllCi(s, pat, rep), k, pat, rep)
    decreases |s|
  {
    var r := ReplaceAllCi(s, pat, rep);
    if |s| >= |pat| && r[k] != s[k] {
      var n := ReplaceStep(s, pat, rep);
      if AtCi(s, 0, pat) && k < |pat| {
        assert r[k] == r[..|pat|][k] == rep[k - 0];
      } else {
        assert k >= n;
        var t := s[n..];
        ReplacedAtIndex(t, pat, rep, k - n);
        assert t[k - n] == s[k] && r[n..][k - n] == r[k];
        OccurrenceShift(s, r, n, pat, rep, k);
      }
    }
  }

  /** One step of the scan: a match at the head is replaced whole and the
      scan resumes after it; otherwise the head is kept and the scan moves
      one place. */
  lemma ReplaceStep(s: string, pat: string, rep: string) returns (n: nat)
    requires pat != [] && |pat| == |rep| && |s| >= |pat|
    ensures n == if AtCi(s, 0, pat) then |pat| else 1
    ensures ReplaceAllCi(s, pat, rep)[n..] == ReplaceAllCi(s[n..], pat, rep)
    ensures AtCi(s, 0, pat) ==> ReplaceAllCi(s, pat, rep)[..|pat|] == rep
    ensures !AtCi(s, 0, pat) ==> ReplaceAllCi(s, pat, rep)[0] == s[0]
  {
    n := if AtCi(s, 0, pat) then |pat| else 1;
  }

  /** An occurrence found in a suffix is an occurrence in the whole. */
  lemma OccurrenceShift(s: string, r: string, n: nat, pat: string, rep: string, k: nat)
    requires |pat| == |rep| && n <= k < |s| && |r| == |s|
    requires ReplacedAt(s[n..], r[n..], k - n, pat, rep)
    ensures ReplacedAt(s, r, k, pat, rep)
  {
    var i: nat :| i <= k - n < i + |pat| && AtCi(s[n..], i, pat) && r[n..][k - n] == rep[k - n - i];
    AtCiSuffix(s, n, i, pat);
    assert r[k] == rep[k - (i + n)];
  }

  /** The first character of `pat` does not recur in it, so two
      occurrences of `pat` never overlap. */
  predicate HeadUnique(pat: string) {
    forall m :: 0 < m < |pat| ==> pat[m] != pat[0]
  }

  /** The converse of `ReplaceWithinOccurrences` for patterns that cannot
      overlap themselves: every occurrence of `pat` in `s` is replaced in
      full, character by character. */
  lemma {:induction false} ReplaceCoversOccurrence(s: string, pat: string, rep: string, i: nat, k: nat)
    requires pat != [] && |pat| == |rep| && HeadUnique(pat)
    requires AtCi(s, i, pat) && i <= k < i + |pat|
    ensures ReplaceAllCi(s, pat, rep)[k] == rep[k - i]
    decreases |s|
  {
    if i == 0 {
      ReplaceHead(s, pat, rep, k);
    } else {
      var n := OccurrenceInTail(s, pat, i);
      ReplaceCoversOccurrence(s[n..], pat, rep, i - n, k - n);
      ReplaceFromTail(s, pat, rep, n, k, rep[(k - n) - (i - n)]);
    }
  }

  /** An occurrence at the head is replaced whole. */
  lemma ReplaceHead(s: string, pat: string, rep: string, k: nat)
    requires pat != [] && |pat| == |rep| && AtCi(s, 0, pat) && k < |pat|
    ensures ReplaceAllCi(s, pat, rep)[k] == rep[k]
  {
    var n := ReplaceStep(s, pat, rep);
    assert ReplaceAllCi(s, pat, rep)[k] == ReplaceAllCi(s, pat, rep)[..|pat|][k];
  }

  /** Past the scan's first step, the result is the result on the rest. */
  lemma ReplaceFromTail(s: string, pat: string, rep: string, n: nat, k: nat, c: char)
    requires pat != [] && |pat| == |rep| && |s| >= |pat|
    requires n == (if AtCi(s, 0, pat) then |pat| else 1) && n <= k < |s|
    requires ReplaceAllCi(s[n..], pat, rep)[k - n] == c
    ensures ReplaceAllCi(s, pat, rep)[k] == c
  {
    var m := ReplaceStep(s, pat, rep);
    IndexShift(ReplaceAllCi(s, pat, rep), ReplaceAllCi(s[n..], pat, rep), n, k);
  }

  /** An occurrence past the head survives the scan's first step. */
  lemma OccurrenceInTail(s: string, pat: string, i: nat) returns (n: nat)
    requires HeadUnique(pat) && 0 < i && AtCi(s, i, pat)
    ensures n == if AtCi(s, 0, pat) then |pat| else 1
    ensures n <= i && AtCi(s[n..], i - n, pat)
  {
    n := if AtCi(s, 0, pat) then |pat| else 1;
    if AtCi(s, 0, pat) {
      NoOverlap(s, pat, i);
    }
    AtCiSuffix(s, n, i - n, pat);
  }

  /** Indexing a suffix is indexing the whole, shifted. */
  lemma IndexShift(r: string, rt: string, n: nat, k: nat)
    requires n <= k < |r| && r[n..] == rt
    ensures r[k] == rt[k - n]
  {
  }

  /** Two occurrences of a `HeadUnique` pattern lie at least its length
      apart. */
  lemma NoOverlap(s: string, pat: string, i: nat)
    requires HeadUnique(pat) && 0 < i && AtCi(s, 0, pat) && AtCi(s, i, pat)
    ensures i >= |pat|
  {
    SameHead(s, pat, i);
  }

  /** Two occurrences of `pat` less than its length apart force `pat` to
      repeat its first character at their distance. */
  lemma SameHead(s: string, pat: string, i: nat)
    requires AtCi(s, 0, pat) && AtCi(s, i, pat)
    ensures 0 < i < |pat| ==> pat[i] == pat[0]
  {
    if 0 < i < |pat| {
      assert Lower(s[0 + i]) == pat[i];
      assert Lower(s[i + 0]) == pat[0];
    }
  }

  /** JavaScript white space and line terminators: what `\s` matches and
      what `trim` removes. */
  predicate IsJsSpace(c: char) {
    var n := c as int;
    (9 <= n <= 13) || n == 0x20 || n == 0xA0 || n == 0x1680 || (0x2000 <= n <= 0x200A)
    || n == 0x2028 || n == 0x2029 || n == 0x202F || n == 0x205F || n == 0x3000 || n == 0xFEFF
  }

  /** Every character of `s[lo..hi]` is white space. */
  predicate SpaceBetween(s: string, lo: nat, hi: nat)
    requires lo <= hi <= |s|
  {
    forall k :: lo <= k < hi ==> IsJsSpace(s[k])
  }

  /** Index of the first non-white-space character at or after `i` (or `|s|`). */
  function SkipSpace(s: string, i: nat): (j: nat)
    requires i <= |s|
    ensures i <= j <= |s|
    ensures SpaceBetween(s, i, j)
    ensures j < |s| ==> !IsJsSpace(s[j])
    decreases |s| - i
  {
    if i == |s| || !IsJsSpace(s[i]) then i else SkipSpace(s, i + 1)
  }

  /** Index just after the last non-white-space character before `j`, not
      going below `lo`. */
  function SkipSpaceBack(s: string, lo: nat, j: nat): (i: nat)
    requires lo <= j <= |s|
    ensures lo <= i <= j
    ensures SpaceBetween(s, i, j)
    ensures i > lo ==> !IsJsSpace(s[i - 1])
    decreases j
  {
    if j == lo || !IsJsSpace(s[j - 1]) then j else SkipSpaceBack(s, lo, j - 1)
  }

  /** `s.trim()`: `s` with leading and trailing white space removed. */
  function Trim(s: string): (r: string)
    ensures r == [] || (!IsJsSpace(r[0]) && !IsJsSpace(r[|r| - 1]))
    ensures exists i: nat :: i + |r| <= |s| && At(s, i, r) && SpaceBetween(s, 0, i) && SpaceBetween(s, i + |r|, |s|)
  {
    var i := SkipSpace(s, 0);
    var j := SkipSpaceBack(s, i, |s|);
    var r := s[i..j];
    assert At(s, i, r);
    r
  }

  /** The part of `s` before the first `c`: `s.split(c)[0]`. */
  function BeforeFirst(s: string, c: char): (r: string)
    ensures c !in r
    ensures r <= s
    ensures |r| < |s| ==> s[|r|] == c
    decreases |s|
  {
    if s == [] || s[0] == c then []
    else [s[0]] + BeforeFirst(s[1..], c)
  }

  /** `c` absent: `split(c)[0]` is the whole string. */
  lemma {:induction false} BeforeFirstAbsent(s: string, c: char)
    requires c !in s
    ensures BeforeFirst(s, c) == s
    decreases |s|
  {
    if s != [] {
      BeforeFirstAbsent(s[1..], c);
    }
  }

  /** Whatever follows the first `c` is cut off. */
  lemma {:induction false} BeforeFirstStops(s: string, c: char, t: string)
    requires c !in s
    ensures BeforeFirst(s + [c] + t, c) == s
    decreases |s|
  {
    if s == [] {
      assert (s + [c] + t)[0] == c;
    } else {
      assert (s + [c] + t)[1..] == s[1..] + [c] + t;
      BeforeFirstStops(s[1..], c, t);
    }
  }

  /** A string without outer white space is its own trim. */
  lemma TrimTrimmed(s: string)
    requires s == [] || (!IsJsSpace(s[0]) && !IsJsSpace(s[|s| - 1]))
    ensures Trim(s) == s
  {
  }

  /** Every character of `s` is white space. */
  predicate AllSpace(s: string) {
    forall k :: 0 <= k < |s| ==> IsJsSpace(s[k])
  }

  /** Trimming strips exactly the white space padding around a text that
      has none of its own at either end. */
  lemma TrimPadded(lead: string, m: string, trail: string)
    requires AllSpace(lead) && AllSpace(trail)
    requires m == [] || (!IsJsSpace(m[0]) && !IsJsSpace(m[|m| - 1]))
    ensures Trim(lead + m + trail) == m
  {
    var s := lead + m + trail;
    if m == [] {
      assert s == lead + trail;
      SpacesAppend(lead, trail);
      SkipAllSpace(s, 0);
    } else {
      assert s[|lead|] == m[0];
      SkipLead(s, lead);
      assert s[|lead| + |m| - 1] == m[|m| - 1];
      SkipTrail(s, |lead|, |lead| + |m|, trail);
      assert s[|lead|..|lead| + |m|] == m;
    }
  }

  lemma SpacesAppend(a: string, b: string)
    requires AllSpace(a) && AllSpace(b)
    ensures AllSpace(a + b)
  {
    forall k | 0 <= k < |a + b| ensures IsJsSpace((a + b)[k]) {
      if k < |a| { assert (a + b)[k] == a[k]; } else { assert (a + b)[k] == b[k - |a|]; }
    }
  }

  lemma SkipAllSpace(s: string, i: nat)
    requires AllSpace(s) && i <= |s|
    ensures SkipSpace(s, i) == |s|
  {
  }

  lemma SkipLead(s: string, lead: string)
    requires AllSpace(lead) && lead <= s && |lead| < |s| && !IsJsSpace(s[|lead|])
    ensures SkipSpace(s, 0) == |lead|
  {
    assert forall k :: 0 <= k < |lead| ==> s[k] == lead[k];
  }

  lemma SkipTrail(s: string, lo: nat, j: nat, trail: string)
    requires lo < j && j + |trail| == |s| && AllSpace(trail) && s[j..] == trail && !IsJsSpace(s[j - 1])
    ensures SkipSpaceBack(s, lo, |s|) == j
  {
    assert forall k :: j <= k < |s| ==> s[k] == trail[k - j];
  }

  /** Trimming only removes characters. */
  lemma TrimChars(s: string, c: char)
    ensures c in Trim(s) ==> c in s
  {
    var r := Trim(s);
    if c in r {
      var i: nat :| i + |r| <= |s| && At(s, i, r) && SpaceBetween(s, 0, i) && SpaceBetween(s, i + |r|, |s|);
      var k :| 0 <= k < |r| && r[k] == c;
      assert s[i + k] == r[k];
    }
  }

  /** ASCII lower-casing of a whole string (`toLowerCase` on ASCII text). */
  function LowerAll(s: string): (r: string)
    ensures |r| == |s|
    ensures forall i :: 0 <= i < |s| ==> r[i] == Lower(s[i])
  {
    seq(|s|, i requires 0 <= i < |s| => Lower(s[i]))
  }
}
