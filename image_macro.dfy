/** The Confluence storage-format image macro: how `build_image_macro` writes
    it, and how `_has_image_macro` recognises a page that already refers to
    an attachment. */
module ImageMacro {
  import opened Wrappers
  import opened Text
  import opened Patterns

  /** Python's truthiness of the `alt` argument: any non-empty text. */
  predicate AltGiven(alt: string) {
    alt != ""
  }

  /** Python's truthiness of the `width` argument: given and not zero. */
  predicate WidthGiven(width: Option<int>) {
    width.Some? && width.value != 0
  }

  /** ` ac:alt="ALT"` when an alt text is given. */
  function AltAttribute(alt: string): (a: string)
    ensures AltGiven(alt) <==> a != ""
  {
    if AltGiven(alt) then " ac:alt=\"" + alt + "\"" else ""
  }

  /** ` ac:width="N"` when a width is given, `N` in decimal. */
  function WidthAttribute(width: Option<int>): (a: string)
    ensures WidthGiven(width) <==> a != ""
  {
    if WidthGiven(width) then " ac:width=\"" + IntToDecimal(width.value) + "\"" else ""
  }

  /** `ri:filename="F"`: the reference written with double quotes. */
  function DoubleQuoted(filename: string): string {
    "ri:filename=\"" + filename + "\""
  }

  /** The attachment reference inside the macro,
      `<ri:attachment ri:filename="F" />`. */
  function AttachmentElement(filename: string): string {
    "<ri:attachment " + DoubleQuoted(filename) + " />"
  }

  /** The attributes of the `<ac:image>` element. */
  function MacroAttributes(alt: string, width: Option<int>): string {
    AltAttribute(alt) + WidthAttribute(width)
  }

  /** The macro with attributes `a` for `filename`. */
  function MacroWith(filename: string, a: string): string {
    "<ac:image" + a + ">" + AttachmentElement(filename) + "</ac:image>"
  }

  /** `build_image_macro(filename, alt, width)`: no escaping of any kind is
      applied to the alt text or the filename. */
  function BuildImageMacro(filename: string, alt: string, width: Option<int>): string {
    MacroWith(filename, MacroAttributes(alt, width))
  }

  /** The alt text is written as it stands: an alt text holding a quote can
      spell out attributes of its own, so two different calls can build the
      same macro. */
  lemma AltIsNotEscaped(filename: string)
    ensures BuildImageMacro(filename, "x\" ac:width=\"5", None) == BuildImageMacro(filename, "x", Some(5))
  {
    assert IntToDecimal(5) == "5";
  }

  /** `ri:filename='F'`: the reference written with single quotes. */
  function SingleQuoted(filename: string): string {
    "ri:filename='" + filename + "'"
  }

  /** `_has_image_macro`: one of four exact (case-sensitive) substrings. */
  predicate HasImageMacro(html: string, filename: string) {
    || Contains(html, "ri:attachment " + DoubleQuoted(filename))
    || Contains(html, DoubleQuoted(filename))
    || Contains(html, "ri:attachment " + SingleQuoted(filename))
    || Contains(html, SingleQuoted(filename))
  }

  /** The two `ri:attachment ...` tests are subsumed by the two plain ones:
      the page refers to the attachment exactly when it contains the
      reference with either quote. */
  lemma HasImageMacroIff(html: string, filename: string)
    ensures HasImageMacro(html, filename)
        <==> Contains(html, DoubleQuoted(filename)) || Contains(html, SingleQuoted(filename))
  {
    if Contains(html, "ri:attachment " + DoubleQuoted(filename)) {
      IsAtConcat("ri:attachment ", DoubleQuoted(filename), "");
      assert "ri:attachment " + DoubleQuoted(filename) + "" == "ri:attachment " + DoubleQuoted(filename);
      ContainsTransitive(html, "ri:attachment " + DoubleQuoted(filename), DoubleQuoted(filename));
    }
    if Contains(html, "ri:attachment " + SingleQuoted(filename)) {
      IsAtConcat("ri:attachment ", SingleQuoted(filename), "");
      assert "ri:attachment " + SingleQuoted(filename) + "" == "ri:attachment " + SingleQuoted(filename);
      ContainsTransitive(html, "ri:attachment " + SingleQuoted(filename), SingleQuoted(filename));
    }
  }

  /** A page holding a macro built for `filename` refers to that attachment. */
  lemma BuiltMacroIsReferenced(page: string, filename: string, alt: string, width: Option<int>, i: nat)
    requires IsAt(page, BuildImageMacro(filename, alt, width), i)
    ensures HasImageMacro(page, filename)
  {
    var a := MacroAttributes(alt, width);
    var e := AttachmentElement(filename);
    MacroOpeningPieces(a, e);
    IsAtConcat("<ri:attachment ", DoubleQuoted(filename), " />");
    IsAtCompose(page, BuildImageMacro(filename, alt, width), i, e, 10 + |a|);
    IsAtCompose(page, e, i + 10 + |a|, DoubleQuoted(filename), 15);
    assert IsAt(page, DoubleQuoted(filename), i + 25 + |a|);
  }

  // ----- where the pieces of a built macro sit in a page -----

  /** The pieces of `<ac:image ATTRS>ELEMENT</ac:image>` inside the macro. */
  lemma MacroOpeningPieces(a: string, e: string)
    ensures IsAt("<ac:image" + a + ">" + e + "</ac:image>", "<ac:image" + a + ">", 0)
    ensures IsAt("<ac:image" + a + ">" + e + "</ac:image>", e, 10 + |a|)
    ensures IsAt("<ac:image" + a + ">" + e + "</ac:image>", "</ac:image>", 10 + |a| + |e|)
  {
    var h := "<ac:image" + a + ">";
    IsAtPrefix(h + e, "</ac:image>");
    IsAtSuffix(h + e, "</ac:image>");
    IsAtPrefix(h, e);
    IsAtSuffix(h, e);
    IsAtCompose(h + e + "</ac:image>", h + e, 0, h, 0);
    IsAtCompose(h + e + "</ac:image>", h + e, 0, e, |h|);
  }

  lemma OpeningPieces(a: string)
    ensures IsAt("<ac:image" + a + ">", "<ac:image", 0) && IsAt("<ac:image" + a + ">", a, 9)
    ensures ("<ac:image" + a + ">")[9 + |a|] == '>'
  {
    IsAtPrefix("<ac:image" + a, ">");
    IsAtPrefix("<ac:image", a);
    IsAtSuffix("<ac:image", a);
    IsAtCompose("<ac:image" + a + ">", "<ac:image" + a, 0, "<ac:image", 0);
    IsAtCompose("<ac:image" + a + ">", "<ac:image" + a, 0, a, 9);
  }

  /** The pieces of a macro inside `page`. */
  lemma MacroLayout(page: string, filename: string, a: string, i: nat)
    requires IsAt(page, MacroWith(filename, a), i)
    ensures
      && IsAt(page, "<ac:image", i) && IsAt(page, a, i + 9)
      && page[i + 9 + |a|] == '>' && IsAt(page, AttachmentElement(filename), i + 10 + |a|)
      && IsAt(page, "</ac:image>", i + 10 + |a| + |AttachmentElement(filename)|)
  {
    var e := AttachmentElement(filename);
    var m := MacroWith(filename, a);
    MacroOpeningPieces(a, e);
    OpeningAt(page, i, a, m);
    IsAtCompose(page, m, i, e, 10 + |a|);
    IsAtCompose(page, m, i, "</ac:image>", 10 + |a| + |e|);
  }

  lemma OpeningAt(page: string, i: nat, a: string, m: string)
    requires IsAt(page, m, i) && IsAt(m, "<ac:image" + a + ">", 0)
    ensures IsAt(page, "<ac:image", i) && IsAt(page, a, i + 9) && page[i + 9 + |a|] == '>'
  {
    var h := "<ac:image" + a + ">";
    OpeningPieces(a);
    IsAtCompose(page, m, i, h, 0);
    IsAtCompose(page, h, i, "<ac:image", 0);
    IsAtCompose(page, h, i, a, 9);
    IsAtChar(page, h, i, 9 + |a|);
  }

  /** The pieces of `<ri:attachment ri:filename="F" />`. */
  lemma ElementPieces(filename: string)
    ensures IsAt(AttachmentElement(filename), "<ri:attachment", 0)
    ensures IsAt(AttachmentElement(filename), "ri:filename=", 15)
    ensures IsAt(AttachmentElement(filename), filename, 28)
  {
    var e := AttachmentElement(filename);
    var lead := "<ri:attachment ";
    var name := "ri:filename=\"";
    IsAtPrefix(lead + DoubleQuoted(filename), " />");
    IsAtSuffix(lead, DoubleQuoted(filename));
    IsAtCompose(e, lead + DoubleQuoted(filename), 0, DoubleQuoted(filename), 15);
    IsAtPrefix(name + filename, "\"");
    IsAtSuffix(name, filename);
    IsAtCompose(e, DoubleQuoted(filename), 15, name + filename, 0);
    IsAtCompose(e, name + filename, 15, filename, 13);
    IsAtPrefix(lead, DoubleQuoted(filename));
    IsAtCompose(e, lead + DoubleQuoted(filename), 0, lead, 0);
    assert "<ri:attachment" + " " == lead;
    IsAtPrefix("<ri:attachment", " ");
    IsAtCompose(e, lead, 0, "<ri:attachment", 0);
    IsAtPrefix(name, filename);
    IsAtCompose(e, name + filename, 15, name, 0);
    assert "ri:filename=" + "\"" == name;
    IsAtPrefix("ri:filename=", "\"");
    IsAtCompose(e, name, 15, "ri:filename=", 0);
  }

  lemma ElementChars(filename: string)
    ensures var e := AttachmentElement(filename);
      && |e| == 32 + |filename| && e[14] == ' ' && e[27] == '"' && e[28 + |filename|] == '"'
      && e[29 + |filename|] == ' ' && e[30 + |filename|] == '/' && e[31 + |filename|] == '>'
  {
  }

  /** The pieces of `<ri:attachment ri:filename="F" />` where it occurs. */
  lemma ElementLayout(page: string, filename: string, r: nat)
    requires IsAt(page, AttachmentElement(filename), r)
    ensures IsAt(page, "<ri:attachment", r) && IsAt(page, "ri:filename=", r + 15)
    ensures IsAt(page, filename, r + 28)
    ensures page[r + 14] == ' ' && page[r + 27] == '"' && page[r + 28 + |filename|] == '"'
    ensures page[r + 29 + |filename|] == ' ' && page[r + 30 + |filename|] == '/'
    ensures page[r + 31 + |filename|] == '>'
    ensures |AttachmentElement(filename)| == 32 + |filename|
  {
    var e := AttachmentElement(filename);
    ElementPieces(filename);
    ElementChars(filename);
    IsAtCompose(page, e, r, "<ri:attachment", 0);
    IsAtCompose(page, e, r, "ri:filename=", 15);
    IsAtCompose(page, e, r, filename, 28);
    IsAtChar(page, e, r, 14);
    IsAtChar(page, e, r, 27);
    IsAtChar(page, e, r, 28 + |filename|);
    IsAtChar(page, e, r, 29 + |filename|);
    IsAtChar(page, e, r, 30 + |filename|);
    IsAtChar(page, e, r, 31 + |filename|);
  }

  // ----- a built macro is what `_replace_image_macro` looks for -----

  /** The attributes begin with a space and, when the alt text has no `>`,
      hold no `>`. */
  lemma AttributesShape(alt: string, width: Option<int>)
    requires Lacks(alt, '>')
    ensures Lacks(MacroAttributes(alt, width), '>')
    ensures |MacroAttributes(alt, width)| == 0 || MacroAttributes(alt, width)[0] == ' '
  {
    LacksIsNotIn(alt, '>');
    if WidthGiven(width) {
      IntToDecimalAlphabet(width.value);
    }
    assert '>' !in MacroAttributes(alt, width);
    LacksIsNotIn(MacroAttributes(alt, width), '>');
  }

  /** A StrictMacro opening from its characters. */
  lemma HeadFromPieces(page: string, i: nat, n: nat, r: nat)
    requires IsAtIgnoringCase(page, "<ac:image", i) && page[i + 8] == 'e'
    requires i + 9 + n < |page| && NoCharIn(page, '>', i + 9, i + 9 + n) && page[i + 9 + n] == '>'
    requires n == 0 || page[i + 9] == ' '
    requires r == i + 10 + n && IsAtIgnoringCase(page, "<ri:attachment", r)
    requires r + 14 < |page| && page[r + 13] == 't' && page[r + 14] == ' '
    ensures StrictHead(page, i, i + 9 + n, r)
  {
  }

  /** A StrictMacro tail from its characters. */
  lemma TailFromPieces(page: string, filename: string, r: nat)
    requires r + 31 + |filename| < |page| && page[r + 14] == ' '
    requires IsAtIgnoringCase(page, "ri:filename=", r + 15) && page[r + 15] == 'r' && page[r + 27] == '"'
    requires IsAtIgnoringCase(page, filename, r + 28) && page[r + 28 + |filename|] == '"'
    requires page[r + 29 + |filename|] == ' ' && page[r + 30 + |filename|] == '/'
    requires page[r + 31 + |filename|] == '>'
    requires IsAtIgnoringCase(page, "</ac:image>", r + 32 + |filename|)
    ensures NoCharIn(page, '>', r + 14, r + 15)
    ensures StrictTail(page, filename, r + 15, r + 31 + |filename|, r + 32 + |filename|)
  {
    var g := r + 31 + |filename|;
    NoCharInExtend(page, '>', r + 14, r + 14);
    NoCharInExtend(page, '>', g - 2, g - 2);
    NoCharInExtend(page, '>', g - 2, g - 1);
  }

  lemma OpeningChars(page: string, a: string, i: nat)
    requires IsAt(page, "<ac:image", i) && IsAt(page, a, i + 9)
    requires Lacks(a, '>') && (|a| == 0 || a[0] == ' ')
    ensures IsAtIgnoringCase(page, "<ac:image", i) && page[i + 8] == 'e'
    ensures NoCharIn(page, '>', i + 9, i + 9 + |a|) && (|a| == 0 || page[i + 9] == ' ')
  {
    IsAtIgnoresCase(page, "<ac:image", i);
    IsAtChar(page, "<ac:image", i, 8);
    NoCharInCopy(page, a, '>', i + 9);
    if |a| != 0 {
      IsAtChar(page, a, i + 9, 0);
    }
  }

  lemma ElementOpeningChars(page: string, filename: string, r: nat)
    requires IsAt(page, AttachmentElement(filename), r)
    ensures IsAtIgnoringCase(page, "<ri:attachment", r) && r + 14 < |page|
    ensures page[r + 13] == 't' && page[r + 14] == ' '
  {
    ElementLayout(page, filename, r);
    IsAtIgnoresCase(page, "<ri:attachment", r);
    IsAtChar(page, "<ri:attachment", r, 13);
  }

  /** The StrictMacro opening of a macro laid out in `page` at `i`. */
  lemma HeadFromLayout(page: string, filename: string, a: string, i: nat)
    requires IsAt(page, "<ac:image", i) && IsAt(page, a, i + 9) && i + 9 + |a| < |page|
    requires page[i + 9 + |a|] == '>' && IsAt(page, AttachmentElement(filename), i + 10 + |a|)
    requires Lacks(a, '>') && (|a| == 0 || a[0] == ' ')
    ensures StrictHead(page, i, i + 9 + |a|, i + 10 + |a|)
  {
    OpeningChars(page, a, i);
    ElementOpeningChars(page, filename, i + 10 + |a|);
    HeadFromPieces(page, i, |a|, i + 10 + |a|);
  }

  /** The StrictMacro tail of a macro whose attachment element is at `r`. */
  lemma TailFromLayout(page: string, filename: string, r: nat)
    requires IsAt(page, AttachmentElement(filename), r)
    requires IsAt(page, "</ac:image>", r + |AttachmentElement(filename)|)
    ensures NoCharIn(page, '>', r + 14, r + 15)
    ensures StrictTail(page, filename, r + 15, r + 31 + |filename|, r + 32 + |filename|)
  {
    ElementLayout(page, filename, r);
    IsAtIgnoresCase(page, "ri:filename=", r + 15);
    IsAtIgnoresCase(page, filename, r + 28);
    IsAtIgnoresCase(page, "</ac:image>", r + 32 + |filename|);
    IsAtChar(page, "ri:filename=", r + 15, 0);
    TailFromPieces(page, filename, r);
  }

  /** The StrictMacro path of a macro laid out in `page` at `i`. */
  lemma PathFromLayout(page: string, filename: string, a: string, i: nat)
    requires IsAt(page, "<ac:image", i) && IsAt(page, a, i + 9) && i + 9 + |a| < |page|
    requires page[i + 9 + |a|] == '>' && IsAt(page, AttachmentElement(filename), i + 10 + |a|)
    requires IsAt(page, "</ac:image>", i + 10 + |a| + |AttachmentElement(filename)|)
    requires Lacks(a, '>') && (|a| == 0 || a[0] == ' ')
    ensures var n := |a|;
      StrictPath(page, filename, i, i + 9 + n, i + 10 + n, i + 25 + n, i + 41 + n + |filename|, i + 42 + n + |filename|)
  {
    HeadFromLayout(page, filename, a, i);
    TailFromLayout(page, filename, i + 10 + |a|);
    ElementChars(filename);
  }

  /** `_replace_image_macro` finds a macro that `build_image_macro` wrote,
      as long as the alt text holds no `>`: the search succeeds. */
  lemma BuiltMacroMatches(page: string, filename: string, alt: string, width: Option<int>, i: nat)
    requires IsAt(page, BuildImageMacro(filename, alt, width), i) && Lacks(alt, '>')
    ensures Matches(StrictMacro, page, filename)
  {
    AttributesShape(alt, width);
    MacroMatches(page, filename, MacroAttributes(alt, width), i);
  }

  /** A macro whose attributes hold no `>` and begin with a space matches. */
  lemma MacroMatches(page: string, filename: string, a: string, i: nat)
    requires IsAt(page, MacroWith(filename, a), i)
    requires Lacks(a, '>') && (|a| == 0 || a[0] == ' ')
    ensures Matches(StrictMacro, page, filename)
  {
    MacroLayout(page, filename, a, i);
    LayoutMatches(page, filename, a, i);
  }

  lemma LayoutMatches(page: string, filename: string, a: string, i: nat)
    requires IsAt(page, "<ac:image", i) && IsAt(page, a, i + 9) && i + 9 + |a| < |page|
    requires page[i + 9 + |a|] == '>' && IsAt(page, AttachmentElement(filename), i + 10 + |a|)
    requires IsAt(page, "</ac:image>", i + 10 + |a| + |AttachmentElement(filename)|)
    requires Lacks(a, '>') && (|a| == 0 || a[0] == ' ')
    ensures Matches(StrictMacro, page, filename)
  {
    PathFromLayout(page, filename, a, i);
    PathMatches(page, filename, i, |a|);
  }

  lemma PathMatches(page: string, filename: string, i: nat, n: nat)
    requires StrictPath(page, filename, i, i + 9 + n, i + 10 + n, i + 25 + n, i + 41 + n + |filename|, i + 42 + n + |filename|)
    ensures Matches(StrictMacro, page, filename)
  {
    StrictPathFound(page, filename, i, i + 9 + n, i + 10 + n, i + 25 + n, i + 41 + n + |filename|, i + 42 + n + |filename|);
    assert i <= |page| && MatchAt(StrictMacro, page, filename, i).Some?;
  }
}
