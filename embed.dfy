/** `insert_image`: where the macro for an uploaded attachment goes in a
    page's storage-format body, and whether the body changed. */
module Embed {
  import opened Wrappers
  import opened Text
  import opened Patterns
  import opened ImageMacro
  import opened ReTemplate

  /** The bold marker of the diagram paragraph. */
  const Needle: string := "<strong>Process diagram</strong>"

  /** The paragraph written in front of a body that has no marker. */
  const Heading: string := "<p><strong>Process diagram</strong></p>\n"

  /** Python's truthiness of the `anchor` argument. */
  predicate AnchorGiven(anchor: Option<string>) {
    anchor.Some? && |anchor.value| != 0
  }

  /** `h[:start] + rep + h[end:]`: a match replaced by `rep`, as
      `sub(..., count=1)` does it when `rep` holds no backslash. */
  function Splice(h: string, start: nat, end: nat, rep: string): (r: string)
    requires start <= end <= |h|
    ensures |r| == |h| - (end - start) + |rep| && IsAt(r, rep, start)
    ensures r[..start] == h[..start] && r[start + |rep|..] == h[end..]
  {
    IsAtConcat(h[..start], rep, h[end..]);
    h[..start] + rep + h[end..]
  }

  /** `h[:k] + "\n" + m + "\n" + h[k:]`. */
  function InsertAfter(h: string, k: nat, m: string): (r: string)
    requires k <= |h|
    ensures |r| == |h| + |m| + 2 && IsAt(r, m, k + 1)
    ensures r[k] == '\n' && r[k + 1 + |m|] == '\n'
    ensures r[..k] == h[..k] && r[k + 2 + |m|..] == h[k..]
  {
    IsAtConcat(h[..k] + "\n", m, "\n" + h[k..]);
    assert h[..k] + "\n" + m + "\n" + h[k..] == (h[..k] + "\n") + m + ("\n" + h[k..]);
    h[..k] + "\n" + m + "\n" + h[k..]
  }

  /** `pattern.search(h)` and, when it succeeds, `pattern.sub(m, h, count=1)`
      with `m` taken literally: `_replace_image_macro` for StrictMacro, the
      `<img>` branch of `insert_image` for LegacyImg. */
  function ReplaceFirst(p: Pattern, h: string, f: string, m: string): (r: (string, bool))
    ensures r.1 <==> Matches(p, h, f)
    ensures !r.1 ==> r.0 == h
  {
    match FirstMatch(p, h, f)
    case None => (h, false)
    case Some(sp) => (Splice(h, sp.start, sp.end, m), true)
  }

  /** The insertions tried when the page has neither a reference nor an
      `<img>` tag: after the first occurrence of a non-empty anchor, after
      the first `</p>` from the first marker, or in front of the body under
      a new heading. */
  function PlaceMacro(h: string, anchor: Option<string>, m: string): string {
    var at := if AnchorGiven(anchor) then Find(h, anchor.value) else -1;
    if at != -1 then InsertAfter(h, at + |anchor.value|, m)
    else
      var idx := Find(h, Needle);
      var close := if idx == -1 then -1 else FindFrom(h, "</p>", idx);
      if close != -1 then InsertAfter(h, close + 4, m)
      else Heading + m + "\n" + h
  }

  /** `insert_image(storage_html, filename, alt, anchor, width)` with the
      macro spliced in literally. The body is left alone exactly when the
      page already refers to the attachment and either no attribute was
      given or the macro pattern finds nothing to replace. */
  function InsertImage(h: string, f: string, alt: string, anchor: Option<string>, width: Option<int>): (r: (string, bool))
    ensures !r.1 ==> r.0 == h
    ensures !r.1 <==> HasImageMacro(h, f) && (!(AltGiven(alt) || WidthGiven(width)) || !Matches(StrictMacro, h, f))
  {
    var m := BuildImageMacro(f, alt, width);
    if HasImageMacro(h, f) then
      if AltGiven(alt) || WidthGiven(width) then ReplaceFirst(StrictMacro, h, f, m) else (h, false)
    else
      var legacy := ReplaceFirst(LegacyImg, h, f, m);
      if legacy.1 then legacy else (PlaceMacro(h, anchor, m), true)
  }

  // ----- each branch, against the specification of its search -----

  /** Only the leftmost match is replaced, and the text around it stays. */
  lemma ReplaceAtLeftmost(p: Pattern, h: string, f: string, m: string, sp: Span)
    requires IsLeftmost(p, h, f, sp)
    ensures sp.start <= sp.end <= |h|
    ensures ReplaceFirst(p, h, f, m) == (h[..sp.start] + m + h[sp.end..], true)
  {
    LeftmostUnique(p, h, f, FirstMatch(p, h, f).value, sp);
  }

  /** A page that refers to the attachment, given an alt text or a width:
      the leftmost macro for the file is replaced by the new one. */
  lemma MacroReplaced(h: string, f: string, alt: string, anchor: Option<string>, width: Option<int>, sp: Span)
    requires HasImageMacro(h, f) && (AltGiven(alt) || WidthGiven(width))
    requires IsLeftmost(StrictMacro, h, f, sp)
    ensures sp.start <= sp.end <= |h|
    ensures InsertImage(h, f, alt, anchor, width) == (h[..sp.start] + BuildImageMacro(f, alt, width) + h[sp.end..], true)
  {
    ReplaceAtLeftmost(StrictMacro, h, f, BuildImageMacro(f, alt, width), sp);
  }

  /** A page without a reference but with an `<img>` tag for the file: the
      leftmost tag (with its paragraph, spaces and `</p>`) becomes the
      macro. */
  lemma ImgTagReplaced(h: string, f: string, alt: string, anchor: Option<string>, width: Option<int>, sp: Span)
    requires !HasImageMacro(h, f) && IsLeftmost(LegacyImg, h, f, sp)
    ensures sp.start <= sp.end <= |h|
    ensures InsertImage(h, f, alt, anchor, width) == (h[..sp.start] + BuildImageMacro(f, alt, width) + h[sp.end..], true)
  {
    ReplaceAtLeftmost(LegacyImg, h, f, BuildImageMacro(f, alt, width), sp);
  }

  /** Neither a reference nor an `<img>` tag: the macro goes on its own line
      right after the first occurrence of a non-empty anchor. */
  lemma AnchorInsertion(h: string, f: string, alt: string, anchor: Option<string>, width: Option<int>, k: int)
    requires !HasImageMacro(h, f) && !Matches(LegacyImg, h, f)
    requires AnchorGiven(anchor) && IsFirstFrom(h, anchor.value, 0, k)
    ensures 0 <= k && k + |anchor.value| <= |h|
    ensures InsertImage(h, f, alt, anchor, width)
         == (h[..k + |anchor.value|] + "\n" + BuildImageMacro(f, alt, width) + "\n" + h[k + |anchor.value|..], true)
  {
    FirstFromUnique(h, anchor.value, 0, Find(h, anchor.value), k);
  }

  /** No anchor to follow, but a marker: the macro goes on its own line
      after the first `</p>` at or after the first marker. */
  lemma HeadingInsertion(h: string, f: string, alt: string, anchor: Option<string>, width: Option<int>, n: int, c: int)
    requires !HasImageMacro(h, f) && !Matches(LegacyImg, h, f)
    requires !AnchorGiven(anchor) || !Contains(h, anchor.value)
    requires IsFirstFrom(h, Needle, 0, n) && IsFirstFrom(h, "</p>", n, c)
    ensures 0 <= c && c + 4 <= |h|
    ensures InsertImage(h, f, alt, anchor, width)
         == (h[..c + 4] + "\n" + BuildImageMacro(f, alt, width) + "\n" + h[c + 4..], true)
  {
    HeadingFound(h, n, c);
    PlacedAfterHeading(h, anchor, BuildImageMacro(f, alt, width), n, c);
  }

  lemma PlacedAfterHeading(h: string, anchor: Option<string>, m: string, n: int, c: int)
    requires !AnchorGiven(anchor) || Find(h, anchor.value) == -1
    requires Find(h, Needle) == n && n >= 0 && FindFrom(h, "</p>", n) == c && c >= 0
    ensures PlaceMacro(h, anchor, m) == InsertAfter(h, c + 4, m)
  {
  }

  lemma HeadingFound(h: string, n: int, c: int)
    requires IsFirstFrom(h, Needle, 0, n) && IsFirstFrom(h, "</p>", n, c)
    ensures Find(h, Needle) == n && n >= 0 && FindFrom(h, "</p>", n) == c
  {
    FirstFromUnique(h, Needle, 0, Find(h, Needle), n);
    FirstFromUnique(h, "</p>", n, FindFrom(h, "</p>", n), c);
  }

  /** Nothing to attach the macro to: the heading paragraph and the macro
      are put in front of the unchanged body. */
  lemma PrependFallback(h: string, f: string, alt: string, anchor: Option<string>, width: Option<int>)
    requires !HasImageMacro(h, f) && !Matches(LegacyImg, h, f)
    requires !AnchorGiven(anchor) || !Contains(h, anchor.value)
    requires forall n, j :: IsFirstFrom(h, Needle, 0, n) && n <= j ==> !IsAt(h, "</p>", j)
    ensures InsertImage(h, f, alt, anchor, width) == (Heading + BuildImageMacro(f, alt, width) + "\n" + h, true)
  {
    var idx := Find(h, Needle);
    if idx != -1 {
      assert IsFirstFrom(h, Needle, 0, idx);
    }
  }

  /** An empty anchor is the same as no anchor. */
  lemma EmptyAnchorIgnored(h: string, f: string, alt: string, width: Option<int>)
    ensures InsertImage(h, f, alt, Some(""), width) == InsertImage(h, f, alt, None, width)
  {
    assert !AnchorGiven(Some(""));
  }

  // ----- the result always refers to the attachment -----

  /** A changed body holds the macro built from the arguments. */
  lemma ChangedHoldsMacro(h: string, f: string, alt: string, anchor: Option<string>, width: Option<int>)
    requires InsertImage(h, f, alt, anchor, width).1
    ensures exists i :: IsAt(InsertImage(h, f, alt, anchor, width).0, BuildImageMacro(f, alt, width), i)
  {
    var m := BuildImageMacro(f, alt, width);
    var r := InsertImage(h, f, alt, anchor, width);
    if HasImageMacro(h, f) {
      var sp := FirstMatch(StrictMacro, h, f).value;
      assert IsAt(r.0, m, sp.start);
    } else if Matches(LegacyImg, h, f) {
      var sp := FirstMatch(LegacyImg, h, f).value;
      assert IsAt(r.0, m, sp.start);
    } else {
      PlacedHoldsMacro(h, anchor, m);
    }
  }

  lemma PlacedHoldsMacro(h: string, anchor: Option<string>, m: string)
    ensures exists i :: IsAt(PlaceMacro(h, anchor, m), m, i)
  {
    var r := PlaceMacro(h, anchor, m);
    var at := if AnchorGiven(anchor) then Find(h, anchor.value) else -1;
    var idx := Find(h, Needle);
    var close := if idx == -1 then -1 else FindFrom(h, "</p>", idx);
    if at != -1 {
      assert IsAt(r, m, at + |anchor.value| + 1);
    } else if close != -1 {
      assert IsAt(r, m, close + 4 + 1);
    } else {
      IsAtConcat(Heading, m, "\n" + h);
      assert Heading + m + ("\n" + h) == r;
      assert IsAt(r, m, |Heading|);
    }
  }

  /** Whatever branch is taken, the resulting body refers to the
      attachment with `ri:filename="F"` or `ri:filename='F'`. */
  lemma ResultIsReferenced(h: string, f: string, alt: string, anchor: Option<string>, width: Option<int>)
    ensures HasImageMacro(InsertImage(h, f, alt, anchor, width).0, f)
  {
    var r := InsertImage(h, f, alt, anchor, width);
    if r.1 {
      ChangedHoldsMacro(h, f, alt, anchor, width);
      var i :| IsAt(r.0, BuildImageMacro(f, alt, width), i);
      BuiltMacroIsReferenced(r.0, f, alt, width, i);
    }
  }

  /** Running again without an alt text or a width changes nothing: the
      first run left a reference to the attachment. */
  lemma PlainRerunIsNoOp(h: string, f: string, alt: string, anchor: Option<string>, width: Option<int>,
                         anchor': Option<string>, width': Option<int>)
    requires !WidthGiven(width')
    ensures var once := InsertImage(h, f, alt, anchor, width).0;
      InsertImage(once, f, "", anchor', width') == (once, false)
  {
    ResultIsReferenced(h, f, alt, anchor, width);
  }

  /** Running again with an alt text or a width rewrites a body that the
      first run changed, as long as the first alt text has no `>` (which
      would stop the `[^>]*` of the macro pattern inside the macro). */
  lemma ChangedBodyIsRewritten(h: string, f: string, alt: string, anchor: Option<string>, width: Option<int>,
                               alt': string, anchor': Option<string>, width': Option<int>)
    requires InsertImage(h, f, alt, anchor, width).1 && Lacks(alt, '>')
    requires AltGiven(alt') || WidthGiven(width')
    ensures InsertImage(InsertImage(h, f, alt, anchor, width).0, f, alt', anchor', width').1
  {
    var once := InsertImage(h, f, alt, anchor, width).0;
    ChangedHoldsMacro(h, f, alt, anchor, width);
    var i :| IsAt(once, BuildImageMacro(f, alt, width), i);
    BuiltMacroIsReferenced(once, f, alt, width, i);
    BuiltMacroMatches(once, f, alt, width, i);
  }

  // ----- the source as written: the macro is a replacement template -----

  /** The groups of a match: the whole match, the quote and the filename
      as the page writes it. */
  function MatchGroups(h: string, f: string, sp: Span): (g: seq<string>)
    requires sp.start < sp.quote && sp.quote + 2 + |f| < sp.end <= |h|
    ensures |g| == GroupCount + 1
  {
    [h[sp.start..sp.end], h[sp.quote..sp.quote + 1], h[sp.quote + 1..sp.quote + 1 + |f|]]
  }

  /** `pattern.search(h)` and, when it succeeds, `pattern.sub(m, h, count=1)`
      as Python runs it: `m` is parsed as a template; `None` is the
      `re.error` it raises. Python parses the template before it searches,
      so a bad template raises even where nothing matches; the source only
      calls `sub` after a successful `search`, and so does this function. */
  function ReplaceFirstAsWritten(p: Pattern, h: string, f: string, m: string): (r: Option<(string, bool)>)
    ensures r.Some? ==> (r.value.1 <==> Matches(p, h, f))
  {
    match FirstMatch(p, h, f)
    case None => Some((h, false))
    case Some(sp) =>
      match Substitute(m, MatchGroups(h, f, sp))
      case None => None
      case Some(x) => Some((Splice(h, sp.start, sp.end, x), true))
  }

  /** `insert_image` as written: both `sub` calls expand the macro. */
  function InsertImageAsWritten(h: string, f: string, alt: string, anchor: Option<string>, width: Option<int>): (r: Option<(string, bool)>)
    ensures r.None? ==> Substitutes(h, f, alt, width)
    ensures r.Some? ==> (!r.value.1 ==> r.value.0 == h)
    ensures r.Some? ==> (!r.value.1 <==> HasImageMacro(h, f) && (!(AltGiven(alt) || WidthGiven(width)) || !Matches(StrictMacro, h, f)))
  {
    var m := BuildImageMacro(f, alt, width);
    if HasImageMacro(h, f) then
      if AltGiven(alt) || WidthGiven(width) then ReplaceFirstAsWritten(StrictMacro, h, f, m) else Some((h, false))
    else
      match ReplaceFirstAsWritten(LegacyImg, h, f, m)
      case None => None
      case Some(legacy) => if legacy.1 then Some(legacy) else Some((PlaceMacro(h, anchor, m), true))
  }

  /** Whether `insert_image` reaches one of its two `sub` calls. */
  predicate Substitutes(h: string, f: string, alt: string, width: Option<int>) {
    if HasImageMacro(h, f) then (AltGiven(alt) || WidthGiven(width)) && Matches(StrictMacro, h, f)
    else Matches(LegacyImg, h, f)
  }

  lemma MacroHasNoBackslash(f: string, alt: string, width: Option<int>)
    requires '\\' !in f && '\\' !in alt
    ensures '\\' !in BuildImageMacro(f, alt, width)
  {
    AttributesHaveNoBackslash(alt, width);
    ElementHasNoBackslash(f);
    NotInConcat5("<ac:image", MacroAttributes(alt, width), ">", AttachmentElement(f), "</ac:image>", '\\');
  }

  lemma AttributesHaveNoBackslash(alt: string, width: Option<int>)
    requires '\\' !in alt
    ensures '\\' !in MacroAttributes(alt, width)
  {
    if AltGiven(alt) {
      NotInConcat3(" ac:alt=\"", alt, "\"", '\\');
    }
    if WidthGiven(width) {
      IntToDecimalAlphabet(width.value);
      NotInConcat3(" ac:width=\"", IntToDecimal(width.value), "\"", '\\');
    }
  }

  lemma ElementHasNoBackslash(f: string)
    requires '\\' !in f
    ensures '\\' !in AttachmentElement(f)
  {
    NotInConcat3("ri:filename=\"", f, "\"", '\\');
    NotInConcat3("<ri:attachment ", DoubleQuoted(f), " />", '\\');
  }

  lemma NotInConcat3(a: string, b: string, c: string, x: char)
    requires x !in a && x !in b && x !in c
    ensures x !in a + b + c
  {
  }

  lemma NotInConcat5(a: string, b: string, c: string, d: string, e: string, x: char)
    requires x !in a && x !in b && x !in c && x !in d && x !in e
    ensures x !in a + b + c + d + e
  {
  }

  /** Without a backslash in the alt text or the filename, the source and
      the literal splice agree on every body. */
  lemma AsWrittenAgreesWithoutBackslash(h: string, f: string, alt: string, anchor: Option<string>, width: Option<int>)
    requires '\\' !in f && '\\' !in alt
    ensures InsertImageAsWritten(h, f, alt, anchor, width) == Some(InsertImage(h, f, alt, anchor, width))
  {
    var m := BuildImageMacro(f, alt, width);
    MacroHasNoBackslash(f, alt, width);
    LiteralAsWritten(StrictMacro, h, f, m);
    LiteralAsWritten(LegacyImg, h, f, m);
  }

  lemma LiteralAsWritten(p: Pattern, h: string, f: string, m: string)
    requires '\\' !in m
    ensures ReplaceFirstAsWritten(p, h, f, m) == Some(ReplaceFirst(p, h, f, m))
  {
    match FirstMatch(p, h, f)
    case None =>
    case Some(sp) =>
      LiteralTemplate(m, MatchGroups(h, f, sp));
  }

  /** On a body where `insert_image` reaches a `sub` call, both versions
      come down to the same pattern's replacement. */
  lemma SubstitutingBranch(h: string, f: string, alt: string, anchor: Option<string>, width: Option<int>)
    requires Substitutes(h, f, alt, width)
    ensures var p := if HasImageMacro(h, f) then StrictMacro else LegacyImg;
      && Matches(p, h, f)
      && InsertImageAsWritten(h, f, alt, anchor, width) == ReplaceFirstAsWritten(p, h, f, BuildImageMacro(f, alt, width))
      && InsertImage(h, f, alt, anchor, width) == ReplaceFirst(p, h, f, BuildImageMacro(f, alt, width))
  {
  }

  /** A template with a bad escape after backslash-free text raises as soon
      as the pattern matches. */
  lemma BadTemplateRaises(p: Pattern, h: string, f: string, pre: string, c: char, post: string)
    requires Matches(p, h, f) && '\\' !in pre && IsAsciiLetter(c) && c != 'g' && EscapeChar(c).None?
    ensures ReplaceFirstAsWritten(p, h, f, pre + ['\\', c] + post).None?
  {
    var sp := FirstMatch(p, h, f).value;
    BadEscapeRaises(pre, c, post, MatchGroups(h, f, sp));
  }

  /** A template with `\t` between backslash-free texts splices in a TAB. */
  lemma TabTemplate(p: Pattern, h: string, f: string, pre: string, post: string)
    requires '\\' !in pre && '\\' !in post
    ensures ReplaceFirstAsWritten(p, h, f, pre + "\\t" + post) == Some(ReplaceFirst(p, h, f, pre + "\t" + post))
  {
    match FirstMatch(p, h, f)
    case None =>
    case Some(sp) =>
      TabEscape(pre, post, MatchGroups(h, f, sp));
  }

  lemma Regroup(o: string, a: string, u: string, x: string, v: string, q: string, w: string, g: string, e: string, c: string)
    ensures o + (a + (u + x + v) + q + w) + g + e + c == o + a + u + x + (v + q + w + g + e + c)
  {
  }

  /** The macro split around a part `x` of its alt text. */
  lemma MacroAroundAlt(f: string, u: string, x: string, v: string, width: Option<int>)
    requires |u + x + v| != 0
    ensures BuildImageMacro(f, u + x + v, width)
         == "<ac:image" + " ac:alt=\"" + u + x + (v + "\"" + WidthAttribute(width) + ">" + AttachmentElement(f) + "</ac:image>")
  {
    Regroup("<ac:image", " ac:alt=\"", u, x, v, "\"", WidthAttribute(width), ">", AttachmentElement(f), "</ac:image>");
  }

  /** An alt text with `\` and a letter that is no escape (`C:\data`) makes
      the source raise `re.error` whenever it reaches a `sub` call, where
      the literal splice succeeds. */
  lemma BadEscapeRaisesAsWritten(h: string, f: string, u: string, c: char, v: string, anchor: Option<string>, width: Option<int>)
    requires '\\' !in u && IsAsciiLetter(c) && c != 'g' && EscapeChar(c).None?
    requires Substitutes(h, f, u + ['\\', c] + v, width)
    ensures InsertImageAsWritten(h, f, u + ['\\', c] + v, anchor, width).None?
    ensures InsertImage(h, f, u + ['\\', c] + v, anchor, width).1
  {
    var alt := u + ['\\', c] + v;
    var pre := "<ac:image" + " ac:alt=\"" + u;
    var post := v + "\"" + WidthAttribute(width) + ">" + AttachmentElement(f) + "</ac:image>";
    MacroAroundAlt(f, u, ['\\', c], v, width);
    NotInConcat3("<ac:image", " ac:alt=\"", u, '\\');
    SubstitutingBranch(h, f, alt, anchor, width);
    BadTemplateRaises(if HasImageMacro(h, f) then StrictMacro else LegacyImg, h, f, pre, c, post);
  }

  /** An alt text with `\t` (`C:\temp`) is written with a TAB in its place
      whenever the source reaches a `sub` call. */
  lemma TabEscapeAsWritten(h: string, f: string, u: string, v: string, anchor: Option<string>, width: Option<int>)
    requires '\\' !in u && '\\' !in v && '\\' !in f
    requires Substitutes(h, f, u + "\\t" + v, width)
    ensures InsertImageAsWritten(h, f, u + "\\t" + v, anchor, width) == Some(InsertImage(h, f, u + "\t" + v, anchor, width))
  {
    SubstitutingBranch(h, f, u + "\\t" + v, anchor, width);
    SubstitutingBranch(h, f, u + "\t" + v, anchor, width);
    TabMacro(if HasImageMacro(h, f) then StrictMacro else LegacyImg, h, f, u, v, width);
  }

  lemma TabMacro(p: Pattern, h: string, f: string, u: string, v: string, width: Option<int>)
    requires '\\' !in u && '\\' !in v && '\\' !in f
    ensures ReplaceFirstAsWritten(p, h, f, BuildImageMacro(f, u + "\\t" + v, width))
         == Some(ReplaceFirst(p, h, f, BuildImageMacro(f, u + "\t" + v, width)))
  {
    var pre := "<ac:image" + " ac:alt=\"" + u;
    var post := v + "\"" + WidthAttribute(width) + ">" + AttachmentElement(f) + "</ac:image>";
    MacroAroundAlt(f, u, "\\t", v, width);
    MacroAroundAlt(f, u, "\t", v, width);
    NotInConcat3("<ac:image", " ac:alt=\"", u, '\\');
    PostHasNoBackslash(f, v, width);
    TabTemplate(p, h, f, pre, post);
  }

  lemma PostHasNoBackslash(f: string, v: string, width: Option<int>)
    requires '\\' !in v && '\\' !in f
    ensures '\\' !in v + "\"" + WidthAttribute(width) + ">" + AttachmentElement(f) + "</ac:image>"
  {
    AttributesHaveNoBackslash("", width);
    ElementHasNoBackslash(f);
    assert MacroAttributes("", width) == WidthAttribute(width);
    NotInConcat5(v + "\"", WidthAttribute(width), ">", AttachmentElement(f), "</ac:image>", '\\');
  }
}
