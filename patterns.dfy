// The two regular expressions of the embed resolver, as span matchers.
//
// StrictMacro is the pattern of `_replace_image_macro`, compiled with
// IGNORECASE and DOTALL (DOTALL changes nothing, the pattern has no `.`):
//     <ac:image\b[^>]*>\s*<ri:attachment\b[^>]*\bri:filename=(['"])(F)\1[^>]*/>\s*</ac:image>
// LegacyImg is the pattern of `_find_img_tag_pattern`, compiled with IGNORECASE:
//     (?:<p>\s*)?<img\b[^>]*\bsrc=(['"])(F)\1[^>]*\/?>\s*(?:<\/p>)?
// F is the escaped filename, so it matches the filename literally (ignoring case).
//
// `MatchAt` computes the match a backtracking engine reports at one start
// index, `FirstMatch` the one `search` and `sub(..., count=1)` use.
// `StrictPath` and `LegacyPath` describe every way the regexes can match,
// independently of the engine; the lemmas at the end prove that `MatchAt`
// reports exactly the path the engine prefers.
module Patterns {
  import opened Wrappers
  import opened Text

  datatype Pattern = StrictMacro | LegacyImg

  /** A match: `s[start..end]` is the matched text; group 1 (the quote) is at
      `quote`, and group 2, the filename as the body writes it, follows it. */
  datatype Span = Span(start: nat, quote: nat, end: nat)

  /** The attribute that carries the filename. */
  function AttrName(p: Pattern): string {
    match p
    case StrictMacro => "ri:filename="
    case LegacyImg => "src="
  }

  predicate IsQuote(c: char) {
    c == '\'' || c == '"'
  }

  /** `\bNAME=(['"])(F)\1` matches at index `q`. The backreference `\1`
      compares ignoring case, which for a quote is plain equality. */
  predicate QuotedAttrAt(p: Pattern, s: string, f: string, q: nat) {
    var qt := q + |AttrName(p)|;
    && IsBoundary(s, q) && IsAtIgnoringCase(s, AttrName(p), q)
    && qt + 1 + |f| < |s| && IsQuote(s[qt])
    && IsAtIgnoringCase(s, f, qt + 1) && s[qt + 1 + |f|] == s[qt]
  }

  // Where the pattern's end matches when the closing quote of the attribute
  // ends at `e0`: for StrictMacro `[^>]*/>\s*</ac:image>`, for LegacyImg
  // `[^>]*\/?>\s*(?:<\/p>)?`. Each `[^>]*` stops at the first `>`; the
  // greedy `\s*` and `(?:<\/p>)?` take all they can.
  function TagTail(p: Pattern, s: string, e0: nat): (e: Option<nat>)
    requires e0 <= |s|
    ensures e.Some? ==> e0 < e.value <= |s|
  {
    var g := FindChar(s, '>', e0);
    if g == -1 then None
    else
      var w := SkipSpaces(s, g + 1);
      match p
      case StrictMacro =>
        if g == e0 || s[g - 1] != '/' then None
        else if IsAtIgnoringCase(s, "</ac:image>", w) then Some(w + 11)
        else None
      case LegacyImg =>
        Some(if IsAtIgnoringCase(s, "</p>", w) then w + 4 else w)
  }

  /** The end of the match when the filename attribute is taken at `q`. */
  function AttrMatch(p: Pattern, s: string, f: string, q: nat): (e: Option<nat>)
    ensures e.Some? ==> q + |AttrName(p)| + 2 + |f| < e.value <= |s|
  {
    if QuotedAttrAt(p, s, f, q) then TagTail(p, s, q + |AttrName(p)| + 2 + |f|) else None
  }

  /** The match with the greatest attribute position `q` in `[lo, hi)`: the
      greedy `[^>]*` before `\bNAME=` is tried longest first. */
  function FurthestAttr(p: Pattern, s: string, f: string, start: nat, lo: nat, hi: nat): (m: Option<Span>)
    ensures m.Some? ==> m.value.start == start && lo + |AttrName(p)| <= m.value.quote
    ensures m.Some? ==> m.value.quote + 2 + |f| < m.value.end <= |s|
    decreases hi
  {
    if hi <= lo then None
    else match AttrMatch(p, s, f, hi - 1)
      case Some(e) => Some(Span(start, hi - 1 + |AttrName(p)|, e))
      case None => FurthestAttr(p, s, f, start, lo, hi - 1)
  }

  /** Where `[^>]*` from `lo` must stop: the first `>`, or the end. */
  function WindowEnd(s: string, lo: nat): nat {
    var h := FindChar(s, '>', lo);
    if h == -1 then |s| else h
  }

  /** `[^>]*` from `lo`, then the attribute and the rest of the pattern. */
  function AttrAndTail(p: Pattern, s: string, f: string, start: nat, lo: nat): (m: Option<Span>)
    ensures m.Some? ==> m.value.start == start && lo + |AttrName(p)| <= m.value.quote
    ensures m.Some? ==> m.value.quote + 2 + |f| < m.value.end <= |s|
  {
    FurthestAttr(p, s, f, start, lo, WindowEnd(s, lo))
  }

  /** Where the attributes of the macro's attachment element begin when
      `<ac:image\b[^>]*>\s*<ri:attachment\b` matches at `i`. */
  function StrictHeadEnd(s: string, i: nat): (lo: Option<nat>)
    ensures lo.Some? ==> 14 <= lo.value
  {
    if !(IsAtIgnoringCase(s, "<ac:image", i) && IsBoundary(s, i + 9)) then None
    else
      var g1 := FindChar(s, '>', i + 9);
      if g1 == -1 then None
      else
        var r := SkipSpaces(s, g1 + 1);
        if IsAtIgnoringCase(s, "<ri:attachment", r) && IsBoundary(s, r + 14) then Some(r + 14)
        else None
  }

  /** Where the attributes begin when `<img\b` matches at `r`. */
  function ImgAt(s: string, r: nat): Option<nat> {
    if IsAtIgnoringCase(s, "<img", r) && IsBoundary(s, r + 4) then Some(r + 4) else None
  }

  /** Where the attributes begin when `<p>\s*<img\b` matches at `i`. */
  function ParagraphImgAt(s: string, i: nat): Option<nat> {
    if IsAtIgnoringCase(s, "<p>", i) then ImgAt(s, SkipSpaces(s, i + 3)) else None
  }

  /** The rest of the pattern when the attributes begin at `lo`, if they do. */
  function AttrsFrom(p: Pattern, s: string, f: string, start: nat, lo: Option<nat>): (m: Option<Span>)
    ensures m.Some? ==> m.value.start == start && lo.Some? && lo.value + |AttrName(p)| <= m.value.quote
    ensures m.Some? ==> m.value.quote + 2 + |f| < m.value.end <= |s|
  {
    match lo
    case None => None
    case Some(lo) => AttrAndTail(p, s, f, start, lo)
  }

  /** The match of StrictMacro the regex engine reports at start index `i`. */
  function StrictMatchAt(s: string, f: string, i: nat): Option<Span> {
    AttrsFrom(StrictMacro, s, f, i, StrictHeadEnd(s, i))
  }

  /** The match of LegacyImg the regex engine reports at start index `i`.
      The optional group `(?:<p>\s*)?` is tried first; without it the match
      must begin with `<img` at `i` itself. */
  function LegacyMatchAt(s: string, f: string, i: nat): Option<Span> {
    var withParagraph := AttrsFrom(LegacyImg, s, f, i, ParagraphImgAt(s, i));
    if withParagraph.Some? then withParagraph else AttrsFrom(LegacyImg, s, f, i, ImgAt(s, i))
  }

  /** The match the regex engine reports when it tries start index `i`. */
  function MatchAt(p: Pattern, s: string, f: string, i: nat): (m: Option<Span>)
    ensures m.Some? ==> m.value.start == i && i < m.value.quote && m.value.quote + 2 + |f| < m.value.end <= |s|
  {
    match p
    case StrictMacro => StrictMatchAt(s, f, i)
    case LegacyImg => LegacyMatchAt(s, f, i)
  }

  /** `sp` is the leftmost match of `p` in `s`. */
  predicate IsLeftmost(p: Pattern, s: string, f: string, sp: Span) {
    MatchAt(p, s, f, sp.start) == Some(sp) && forall j: nat :: j < sp.start ==> MatchAt(p, s, f, j).None?
  }

  /** `p` matches somewhere in `s` (Python's `pattern.search(s)` is not None). */
  predicate Matches(p: Pattern, s: string, f: string) {
    exists j: nat | j <= |s| :: MatchAt(p, s, f, j).Some?
  }

  /** The first match whose start is at or after `from`. */
  function FirstMatchFrom(p: Pattern, s: string, f: string, from: nat): (m: Option<Span>)
    ensures m.Some? ==> from <= m.value.start && MatchAt(p, s, f, m.value.start) == m
    ensures forall j: nat :: from <= j <= |s| && (m.None? || j < m.value.start) ==> MatchAt(p, s, f, j).None?
    decreases |s| + 1 - from
  {
    if from > |s| then None
    else match MatchAt(p, s, f, from)
      case Some(sp) => Some(sp)
      case None => FirstMatchFrom(p, s, f, from + 1)
  }

  /** Python's `pattern.search(s)`: the match at the least start index. */
  function FirstMatch(p: Pattern, s: string, f: string): (m: Option<Span>)
    ensures m.None? <==> !Matches(p, s, f)
    ensures m.Some? ==> IsLeftmost(p, s, f, m.value)
  {
    FirstMatchFrom(p, s, f, 0)
  }

  /** There is only one leftmost match. */
  lemma LeftmostUnique(p: Pattern, s: string, f: string, a: Span, b: Span)
    requires IsLeftmost(p, s, f, a) && IsLeftmost(p, s, f, b)
    ensures a == b
  {
    assert MatchAt(p, s, f, a.start).Some? && MatchAt(p, s, f, b.start).Some?;
    assert !(a.start < b.start);
    assert !(b.start < a.start);
  }

  // ----- every way the regexes can match -----

  /** The opening of a StrictMacro match at `i`: `<ac:image\b[^>]*>` closed
      by the `>` at `g1`, then `\s*` up to `<ri:attachment\b` at `r`. */
  predicate StrictHead(s: string, i: nat, g1: nat, r: nat) {
    && IsAtIgnoringCase(s, "<ac:image", i) && IsBoundary(s, i + 9)
    && i + 9 <= g1 < |s| && NoCharIn(s, '>', i + 9, g1) && s[g1] == '>'
    && IsAtIgnoringCase(s, "<ri:attachment", r) && IsBoundary(s, r + 14)
    && g1 + 1 <= r && AllSpacesIn(s, g1 + 1, r)
  }

  // The rest of a StrictMacro match from the attribute at `q`: the quoted
  // filename, `[^>]*/>` with its `>` at `g`, then `\s*` and `</ac:image>`
  // at `w`.
  predicate StrictTail(s: string, f: string, q: nat, g: nat, w: nat) {
    && QuotedAttrAt(StrictMacro, s, f, q)
    && q + 14 + |f| < g < |s| && NoCharIn(s, '>', q + 14 + |f|, g) && s[g - 1] == '/' && s[g] == '>'
    && IsAtIgnoringCase(s, "</ac:image>", w) && g + 1 <= w && AllSpacesIn(s, g + 1, w)
  }

  /** StrictMacro matches `s[i..w + 11]` taking `>` at `g1` to close the
      `<ac:image` tag, `<ri:attachment` at `r`, `ri:filename=` at `q` (after
      `[^>]*`), the `>` of `/>` at `g` and `</ac:image>` at `w`. */
  predicate StrictPath(s: string, f: string, i: nat, g1: nat, r: nat, q: nat, g: nat, w: nat) {
    StrictHead(s, i, g1, r) && r + 14 <= q <= |s| && NoCharIn(s, '>', r + 14, q) && StrictTail(s, f, q, g, w)
  }

  /** The opening of a LegacyImg match at `i`: `<img\b` at `r`, which is `i`
      itself or follows `<p>\s*`. */
  predicate LegacyHead(s: string, i: nat, r: nat) {
    && IsAtIgnoringCase(s, "<img", r) && IsBoundary(s, r + 4)
    && (r == i || (IsAtIgnoringCase(s, "<p>", i) && i + 3 <= r <= |s| && AllSpacesIn(s, i + 3, r)))
  }

  // The rest of a LegacyImg match from the attribute at `q`: the quoted
  // filename, `[^>]*\/?>` with its `>` at `g`, the spaces up to `w` and, when
  // the match ends at `e != w`, `</p>`.
  predicate LegacyTail(s: string, f: string, q: nat, g: nat, w: nat, e: nat) {
    && QuotedAttrAt(LegacyImg, s, f, q)
    && q + 6 + |f| <= g < |s| && NoCharIn(s, '>', q + 6 + |f|, g) && s[g] == '>'
    && g + 1 <= w <= |s| && AllSpacesIn(s, g + 1, w)
    && (e == w || (e == w + 4 && IsAtIgnoringCase(s, "</p>", w)))
  }

  /** LegacyImg matches `s[i..e]` taking `<img` at `r`, `src=` at `q` (after
      `[^>]*`), the `>` closing the tag at `g`, then the spaces up to `w` and,
      when `e != w`, `</p>`. */
  predicate LegacyPath(s: string, f: string, i: nat, r: nat, q: nat, g: nat, w: nat, e: nat) {
    LegacyHead(s, i, r) && r + 4 <= q <= |s| && NoCharIn(s, '>', r + 4, q) && LegacyTail(s, f, q, g, w, e)
  }

  // ----- every path is found, and the greatest attribute position wins -----

  /** No attribute position in `[lo, hi)` above the one FurthestAttr picks
      matches. */
  lemma {:induction false} FurthestAttrIsFurthest(p: Pattern, s: string, f: string, start: nat, lo: nat, hi: nat, k: nat)
    requires lo <= k < hi && AttrMatch(p, s, f, k).Some?
    ensures FurthestAttr(p, s, f, start, lo, hi).Some?
    ensures k + |AttrName(p)| <= FurthestAttr(p, s, f, start, lo, hi).value.quote
    decreases hi
  {
    if AttrMatch(p, s, f, hi - 1).None? {
      FurthestAttrIsFurthest(p, s, f, start, lo, hi - 1, k);
    }
  }

  /** An attribute position reachable from `lo` over `[^>]*` is found, and
      the one taken is at least as far. */
  lemma AttrFound(p: Pattern, s: string, f: string, start: nat, lo: nat, q: nat)
    requires lo <= q <= |s| && NoCharIn(s, '>', lo, q) && QuotedAttrAt(p, s, f, q) && AttrMatch(p, s, f, q).Some?
    ensures AttrAndTail(p, s, f, start, lo).Some?
    ensures q + |AttrName(p)| <= AttrAndTail(p, s, f, start, lo).value.quote
  {
    IgnoringCaseAt(s, AttrName(p), q, 0);
    NoCharInExtend(s, '>', lo, q);
    FindCharBeyond(s, '>', lo, q + 1);
    FurthestAttrIsFurthest(p, s, f, start, lo, WindowEnd(s, lo), q);
  }

  /** A case-insensitive literal starting with `<` marks a non-space. */
  lemma NotSpaceAt(s: string, t: string, w: nat)
    requires IsAtIgnoringCase(s, t, w) && |t| > 0 && t[0] == '<'
    ensures !IsSpace(s[w])
  {
    IgnoringCaseAt(s, t, w, 0);
  }

  lemma StrictTagTailIs(s: string, e0: nat, g: nat, w: nat)
    requires e0 < g < |s| && NoCharIn(s, '>', e0, g) && s[g - 1] == '/' && s[g] == '>'
    requires IsAtIgnoringCase(s, "</ac:image>", w) && g + 1 <= w && AllSpacesIn(s, g + 1, w)
    ensures TagTail(StrictMacro, s, e0) == Some(w + 11)
  {
    FindCharIs(s, '>', e0, g);
    NotSpaceAt(s, "</ac:image>", w);
    SkipSpacesTo(s, g + 1, w);
  }

  lemma StrictTailFound(s: string, f: string, q: nat, g: nat, w: nat)
    requires StrictTail(s, f, q, g, w)
    ensures AttrMatch(StrictMacro, s, f, q) == Some(w + 11)
  {
    StrictTagTailIs(s, q + 14 + |f|, g, w);
  }

  /** The scans of a StrictMacro opening stop where its path says. */
  lemma StrictHeadScans(s: string, i: nat, g1: nat, r: nat)
    requires StrictHead(s, i, g1, r)
    ensures FindChar(s, '>', i + 9) == g1 && SkipSpaces(s, g1 + 1) == r
  {
    FindCharIs(s, '>', i + 9, g1);
    NotSpaceAt(s, "<ri:attachment", r);
    SkipSpacesTo(s, g1 + 1, r);
  }

  lemma StrictHeadFound(s: string, i: nat, g1: nat, r: nat)
    requires StrictHead(s, i, g1, r)
    ensures StrictHeadEnd(s, i) == Some(r + 14)
  {
    StrictHeadScans(s, i, g1, r);
  }

  /** Every StrictMacro path is found, and MatchAt takes an attribute position
      at least as far as the path's. */
  lemma StrictPathFound(s: string, f: string, i: nat, g1: nat, r: nat, q: nat, g: nat, w: nat)
    requires StrictPath(s, f, i, g1, r, q, g, w)
    ensures MatchAt(StrictMacro, s, f, i).Some?
    ensures q + 12 <= MatchAt(StrictMacro, s, f, i).value.quote
  {
    StrictHeadFound(s, i, g1, r);
    StrictMatchVia(s, f, i, r);
    StrictAttrsFound(s, f, i, r, q, g, w);
  }

  lemma StrictAttrsFound(s: string, f: string, i: nat, r: nat, q: nat, g: nat, w: nat)
    requires r + 14 <= q <= |s| && NoCharIn(s, '>', r + 14, q) && StrictTail(s, f, q, g, w)
    ensures AttrAndTail(StrictMacro, s, f, i, r + 14).Some?
    ensures q + 12 <= AttrAndTail(StrictMacro, s, f, i, r + 14).value.quote
  {
    StrictTailFound(s, f, q, g, w);
    AttrFound(StrictMacro, s, f, i, r + 14, q);
  }

  lemma LegacyTailFound(s: string, f: string, q: nat, g: nat, w: nat, e: nat)
    requires LegacyTail(s, f, q, g, w, e)
    ensures AttrMatch(LegacyImg, s, f, q).Some?
  {
    FindCharIs(s, '>', q + 6 + |f|, g);
  }

  /** `<p>` and `<img` cannot start at the same index. */
  lemma ParagraphIsNotImg(s: string, i: nat)
    requires IsAtIgnoringCase(s, "<p>", i)
    ensures !IsAtIgnoringCase(s, "<img", i)
  {
    IgnoringCaseAt(s, "<p>", i, 1);
    if IsAtIgnoringCase(s, "<img", i) {
      IgnoringCaseAt(s, "<img", i, 1);
    }
  }

  /** The opening a LegacyImg path takes is the one the engine reports. */
  lemma LegacyHeadFound(s: string, i: nat, r: nat)
    requires LegacyHead(s, i, r)
    ensures r == i ==> ParagraphImgAt(s, i).None? && ImgAt(s, i) == Some(r + 4)
    ensures r != i ==> ParagraphImgAt(s, i) == Some(r + 4)
  {
    if r == i {
      if IsAtIgnoringCase(s, "<p>", i) {
        ParagraphIsNotImg(s, i);
      }
    } else {
      NotSpaceAt(s, "<img", r);
      SkipSpacesTo(s, i + 3, r);
    }
  }

  /** Once the attributes after a LegacyImg opening match, the engine
      reports that match. */
  lemma LegacyMatchVia(s: string, f: string, i: nat, r: nat)
    requires LegacyHead(s, i, r) && AttrAndTail(LegacyImg, s, f, i, r + 4).Some?
    ensures LegacyMatchAt(s, f, i) == AttrAndTail(LegacyImg, s, f, i, r + 4)
  {
    LegacyHeadFound(s, i, r);
  }

  /** Every LegacyImg path is found, and MatchAt takes an attribute position
      at least as far as the path's. */
  lemma LegacyPathFound(s: string, f: string, i: nat, r: nat, q: nat, g: nat, w: nat, e: nat)
    requires LegacyPath(s, f, i, r, q, g, w, e)
    ensures MatchAt(LegacyImg, s, f, i).Some?
    ensures q + 4 <= MatchAt(LegacyImg, s, f, i).value.quote
  {
    LegacyTailFound(s, f, q, g, w, e);
    AttrFound(LegacyImg, s, f, i, r + 4, q);
    LegacyMatchVia(s, f, i, r);
  }

  // ----- what the engine reports is a path, and the one it prefers -----

  /** The attribute position of the match FurthestAttr reports lies in the
      window. */
  lemma {:induction false} FurthestAttrBounds(p: Pattern, s: string, f: string, start: nat, lo: nat, hi: nat)
    requires FurthestAttr(p, s, f, start, lo, hi).Some?
    ensures var sp := FurthestAttr(p, s, f, start, lo, hi).value;
      lo + |AttrName(p)| <= sp.quote < hi + |AttrName(p)|
    decreases hi
  {
    if AttrMatch(p, s, f, hi - 1).None? {
      FurthestAttrBounds(p, s, f, start, lo, hi - 1);
    }
  }

  /** The match FurthestAttr reports is the one AttrMatch finds at its
      attribute position. */
  lemma {:induction false} FurthestAttrMatches(p: Pattern, s: string, f: string, start: nat, lo: nat, hi: nat, q: nat)
    requires FurthestAttr(p, s, f, start, lo, hi).Some?
    requires q + |AttrName(p)| == FurthestAttr(p, s, f, start, lo, hi).value.quote
    ensures AttrMatch(p, s, f, q).Some? && AttrMatch(p, s, f, q).value == FurthestAttr(p, s, f, start, lo, hi).value.end
    decreases hi
  {
    if AttrMatch(p, s, f, hi - 1).None? {
      FurthestAttrMatches(p, s, f, start, lo, hi - 1, q);
    }
  }

  /** The attribute position AttrAndTail takes is reached over `[^>]*`. */
  lemma AttrAndTailOf(p: Pattern, s: string, f: string, start: nat, lo: nat, q: nat)
    requires AttrAndTail(p, s, f, start, lo).Some? && q + |AttrName(p)| == AttrAndTail(p, s, f, start, lo).value.quote
    ensures lo <= q <= |s| && NoCharIn(s, '>', lo, q)
    ensures AttrMatch(p, s, f, q).Some? && AttrMatch(p, s, f, q).value == AttrAndTail(p, s, f, start, lo).value.end
  {
    FurthestAttrBounds(p, s, f, start, lo, WindowEnd(s, lo));
    FurthestAttrMatches(p, s, f, start, lo, WindowEnd(s, lo), q);
    FindCharScanned(s, '>', lo);
    NoCharInPrefix(s, '>', lo, WindowEnd(s, lo), q);
  }

  /** The opening StrictHeadEnd scans is a StrictMacro opening. */
  lemma StrictHeadOf(s: string, i: nat, r: nat)
    requires StrictHeadEnd(s, i).Some? && StrictHeadEnd(s, i).value == r + 14
    ensures var g1 := FindChar(s, '>', i + 9); 0 <= g1 && StrictHead(s, i, g1, r)
  {
    FindCharScanned(s, '>', i + 9);
    SkipSpacesScanned(s, FindChar(s, '>', i + 9) + 1);
  }

  /** Where AttrMatch ends a StrictMacro match is a StrictMacro tail. */
  lemma StrictTailOf(s: string, f: string, q: nat, e: nat)
    requires AttrMatch(StrictMacro, s, f, q).Some? && AttrMatch(StrictMacro, s, f, q).value == e
    ensures var g := FindChar(s, '>', q + 14 + |f|); 0 <= g && 11 <= e && StrictTail(s, f, q, g, e - 11)
  {
    FindCharScanned(s, '>', q + 14 + |f|);
    SkipSpacesScanned(s, FindChar(s, '>', q + 14 + |f|) + 1);
  }

  lemma StrictMatchVia(s: string, f: string, i: nat, r: nat)
    requires StrictHeadEnd(s, i).Some? && StrictHeadEnd(s, i).value == r + 14
    ensures MatchAt(StrictMacro, s, f, i) == AttrAndTail(StrictMacro, s, f, i, r + 14)
  {
  }

  /** `sp` is a StrictMacro match along some path. */
  ghost predicate IsStrictMatch(s: string, f: string, sp: Span) {
    exists g1: nat, r: nat, q: nat, g: nat, w: nat {:trigger StrictPath(s, f, sp.start, g1, r, q, g, w)} ::
      q + 12 == sp.quote && w + 11 == sp.end && StrictPath(s, f, sp.start, g1, r, q, g, w)
  }

  /** The match taken after a StrictMacro opening is a path. */
  lemma StrictAttrsArePath(s: string, f: string, i: nat, g1: nat, r: nat)
    requires StrictHead(s, i, g1, r)
    requires AttrAndTail(StrictMacro, s, f, i, r + 14).Some?
    ensures IsStrictMatch(s, f, AttrAndTail(StrictMacro, s, f, i, r + 14).value)
  {
    var sp := AttrAndTail(StrictMacro, s, f, i, r + 14).value;
    StrictAttrsAreTail(s, f, i, r);
    var q := sp.quote - 12;
    StrictPathIntro(s, f, g1, r, q, FindChar(s, '>', q + 14 + |f|), sp.end - 11, sp);
  }

  /** The attribute part of a StrictMacro match after the opening ending at
      `r + 14`. */
  lemma StrictAttrsAreTail(s: string, f: string, i: nat, r: nat)
    requires AttrAndTail(StrictMacro, s, f, i, r + 14).Some?
    ensures var sp := AttrAndTail(StrictMacro, s, f, i, r + 14).value;
      var q := sp.quote - 12;
      var g := FindChar(s, '>', q + 14 + |f|);
      && r + 14 <= q <= |s| && NoCharIn(s, '>', r + 14, q)
      && 0 <= g && 11 <= sp.end && StrictTail(s, f, q, g, sp.end - 11)
  {
    var sp := AttrAndTail(StrictMacro, s, f, i, r + 14).value;
    var q := sp.quote - 12;
    AttrAndTailOf(StrictMacro, s, f, i, r + 14, q);
    StrictTailOf(s, f, q, sp.end);
  }

  /** A StrictMacro path put together from its opening and its tail. */
  lemma StrictPathIntro(s: string, f: string, g1: nat, r: nat, q: nat, g: nat, w: nat, sp: Span)
    requires StrictHead(s, sp.start, g1, r)
    requires r + 14 <= q <= |s| && NoCharIn(s, '>', r + 14, q)
    requires StrictTail(s, f, q, g, w)
    requires sp.quote == q + 12 && sp.end == w + 11
    ensures IsStrictMatch(s, f, sp)
  {
    assert StrictPath(s, f, sp.start, g1, r, q, g, w);
  }

  /** What MatchAt reports for StrictMacro is a path, and (with
      StrictPathFound) the one with the greatest attribute position. */
  lemma StrictMatchIsPath(s: string, f: string, i: nat)
    requires MatchAt(StrictMacro, s, f, i).Some?
    ensures IsStrictMatch(s, f, MatchAt(StrictMacro, s, f, i).value)
  {
    var r := StrictHeadEnd(s, i).value - 14;
    StrictMatchVia(s, f, i, r);
    StrictHeadOf(s, i, r);
    StrictAttrsArePath(s, f, i, FindChar(s, '>', i + 9), r);
  }

  /** The scans of a StrictMacro tail stop where its path says. */
  lemma StrictTailScans(s: string, f: string, q: nat, g: nat, w: nat)
    requires StrictTail(s, f, q, g, w)
    ensures FindChar(s, '>', q + 14 + |f|) == g && SkipSpaces(s, g + 1) == w
  {
    FindCharIs(s, '>', q + 14 + |f|, g);
    NotSpaceAt(s, "</ac:image>", w);
    SkipSpacesTo(s, g + 1, w);
  }

  /** One StrictMacro path per start and attribute position: the rest is
      forced. */
  lemma StrictPathUnique(s: string, f: string, i: nat, q: nat,
                         g1: nat, r: nat, g: nat, w: nat, g1': nat, r': nat, g': nat, w': nat)
    requires StrictPath(s, f, i, g1, r, q, g, w) && StrictPath(s, f, i, g1', r', q, g', w')
    ensures g1 == g1' && r == r' && g == g' && w == w'
  {
    StrictHeadUnique(s, i, g1, r, g1', r');
    StrictTailUnique(s, f, q, g, w, g', w');
  }

  lemma StrictHeadUnique(s: string, i: nat, g1: nat, r: nat, g1': nat, r': nat)
    requires StrictHead(s, i, g1, r) && StrictHead(s, i, g1', r')
    ensures g1 == g1' && r == r'
  {
    StrictHeadScans(s, i, g1, r);
    StrictHeadScans(s, i, g1', r');
  }

  lemma StrictTailUnique(s: string, f: string, q: nat, g: nat, w: nat, g': nat, w': nat)
    requires StrictTail(s, f, q, g, w) && StrictTail(s, f, q, g', w')
    ensures g == g' && w == w'
  {
    StrictTailScans(s, f, q, g, w);
    StrictTailScans(s, f, q, g', w');
  }

  /** Where AttrMatch ends a LegacyImg match is a LegacyImg tail that takes
      every space after the tag and then `</p>` when it is there. */
  lemma LegacyTailOf(s: string, f: string, q: nat, e: nat)
    requires AttrMatch(LegacyImg, s, f, q).Some? && AttrMatch(LegacyImg, s, f, q).value == e
    ensures var g := FindChar(s, '>', q + 6 + |f|);
      0 <= g && g + 1 <= |s| &&
      var w := SkipSpaces(s, g + 1);
      && LegacyTail(s, f, q, g, w, e)
      && (w == |s| || !IsSpace(s[w]))
      && (IsAtIgnoringCase(s, "</p>", w) ==> e == w + 4)
  {
    FindCharScanned(s, '>', q + 6 + |f|);
    SkipSpacesScanned(s, FindChar(s, '>', q + 6 + |f|) + 1);
  }

  /** The opening LegacyMatchAt takes is a LegacyImg opening: `<img` at
      `r`. */
  lemma LegacyHeadOf(s: string, f: string, i: nat)
    requires MatchAt(LegacyImg, s, f, i).Some?
    ensures var lo := if AttrsFrom(LegacyImg, s, f, i, ParagraphImgAt(s, i)).Some?
                      then ParagraphImgAt(s, i) else ImgAt(s, i);
      && lo.Some? && 4 <= lo.value && LegacyHead(s, i, lo.value - 4)
      && MatchAt(LegacyImg, s, f, i) == AttrAndTail(LegacyImg, s, f, i, lo.value)
  {
    assert MatchAt(LegacyImg, s, f, i) == LegacyMatchAt(s, f, i);
    if IsAtIgnoringCase(s, "<p>", i) {
      SkipSpacesScanned(s, i + 3);
    }
  }

  /** `sp` is a LegacyImg match that takes every space after the tag and then
      `</p>` when it is there. */
  ghost predicate IsLegacyMatch(s: string, f: string, sp: Span) {
    exists r: nat, q: nat, g: nat, w: nat, e: nat {:trigger LegacyPath(s, f, sp.start, r, q, g, w, e)} ::
      && q + 4 == sp.quote && e == sp.end && LegacyPath(s, f, sp.start, r, q, g, w, e)
      && (w == |s| || !IsSpace(s[w]))
      && (IsAtIgnoringCase(s, "</p>", w) ==> e == w + 4)
  }

  lemma LegacyPathIntro(s: string, f: string, r: nat, q: nat, g: nat, w: nat, sp: Span)
    requires LegacyHead(s, sp.start, r) && r + 4 <= q <= |s| && NoCharIn(s, '>', r + 4, q)
    requires LegacyTail(s, f, q, g, w, sp.end)
    requires w == |s| || !IsSpace(s[w])
    requires IsAtIgnoringCase(s, "</p>", w) ==> sp.end == w + 4
    requires sp.quote == q + 4
    ensures IsLegacyMatch(s, f, sp)
  {
    assert LegacyPath(s, f, sp.start, r, q, g, w, sp.end);
  }

  lemma LegacyAttrsArePath(s: string, f: string, i: nat, r: nat)
    requires LegacyHead(s, i, r) && AttrAndTail(LegacyImg, s, f, i, r + 4).Some?
    ensures IsLegacyMatch(s, f, AttrAndTail(LegacyImg, s, f, i, r + 4).value)
  {
    var sp := AttrAndTail(LegacyImg, s, f, i, r + 4).value;
    var q := sp.quote - 4;
    AttrAndTailOf(LegacyImg, s, f, i, r + 4, q);
    LegacyTailOf(s, f, q, sp.end);
    var g := FindChar(s, '>', q + 6 + |f|);
    LegacyPathIntro(s, f, r, q, g, SkipSpaces(s, g + 1), sp);
  }

  /** What MatchAt reports for LegacyImg is a path, and (with LegacyPathFound)
      the one with the greatest attribute position. */
  lemma LegacyMatchIsPath(s: string, f: string, i: nat)
    requires MatchAt(LegacyImg, s, f, i).Some?
    ensures IsLegacyMatch(s, f, MatchAt(LegacyImg, s, f, i).value)
  {
    LegacyHeadOf(s, f, i);
    var r := (if AttrsFrom(LegacyImg, s, f, i, ParagraphImgAt(s, i)).Some?
              then ParagraphImgAt(s, i).value else ImgAt(s, i).value) - 4;
    LegacyAttrsArePath(s, f, i, r);
  }
}
