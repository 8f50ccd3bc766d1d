/** The replacement template of Python's `re.sub` (the parser of Python
    3.12's `re._parser.parse_template` and the expansion that follows it).
    In `pattern.sub(repl, string)` a string `repl` is not inserted as it
    stands: backslash escapes are processed, `\1`, `\g<1>` and the like are
    replaced by the text of a group, and an unknown escape of an ASCII
    letter raises `re.error`. */
module ReTemplate {
  import opened Wrappers
  import opened Text

  /** A parsed template is a sequence of characters and group references. */
  datatype Piece = Char(c: char) | Group(index: nat)

  /** The patterns whose templates are parsed here have two groups: the
      quote and the filename. */
  const GroupCount: nat := 2

  predicate IsOctalDigit(c: char) {
    '0' <= c <= '7'
  }

  predicate IsAsciiLetter(c: char) {
    ('a' <= c <= 'z') || ('A' <= c <= 'Z')
  }

  function DigitValue(c: char): nat
    requires IsDigit(c)
  {
    c as int - '0' as int
  }

  /** The value of one to three octal digits. */
  function OctalValue(ds: string): (v: nat)
    requires forall k :: 0 <= k < |ds| ==> IsOctalDigit(ds[k])
    ensures |ds| <= 3 ==> v < 512
    ensures |ds| <= 2 ==> v < 64
    ensures |ds| <= 1 ==> v < 8
  {
    if |ds| == 0 then 0
    else
      var init := ds[..|ds| - 1];
      assert forall k :: 0 <= k < |init| ==> init[k] == ds[k];
      assert IsOctalDigit(ds[|ds| - 1]);
      OctalValue(init) * 8 + DigitValue(ds[|ds| - 1])
  }

  /** The one-letter escapes a template understands (`ESCAPES`). */
  function EscapeChar(c: char): Option<char> {
    match c
    case 'a' => Some(7 as char)
    case 'b' => Some(8 as char)
    case 'f' => Some(12 as char)
    case 'n' => Some('\n')
    case 'r' => Some('\r')
    case 't' => Some('\t')
    case 'v' => Some(11 as char)
    case '\\' => Some('\\')
    case _ => None
  }

  /** Every group reference of `ps` names a group of the pattern. */
  predicate WellFormed(ps: seq<Piece>) {
    forall k :: 0 <= k < |ps| ==> (ps[k].Group? ==> ps[k].index <= GroupCount)
  }

  function Cons(p: Piece, rest: Option<seq<Piece>>): Option<seq<Piece>> {
    match rest
    case None => None
    case Some(ps) => Some([p] + ps)
  }

  /** A reference to group `index` followed by the rest of the template;
      a group the pattern does not have raises. */
  function GroupThen(index: nat, rest: Option<seq<Piece>>): Option<seq<Piece>> {
    if index > GroupCount then None else Cons(Group(index), rest)
  }

  /** `parse_template(t)`; `None` is the `re.error` it raises. */
  function Parse(t: string): (r: Option<seq<Piece>>)
    ensures r.Some? ==> WellFormed(r.value)
    decreases |t|
  {
    if |t| == 0 then Some([])
    else if t[0] != '\\' then Cons(Char(t[0]), Parse(t[1..]))
    else if |t| == 1 then None
    else
      var c := t[1];
      if c == 'g' then
        // \g<NAME>: NAME runs to the next `>`; with no named groups it must
        // be an ASCII decimal number.
        if |t| < 3 || t[2] != '<' then None
        else
          var h := FindChar(t, '>', 3);
          if h == -1 then None
          else
            var name := t[3..h];
            if |name| == 0 || !AllDigits(name) then None
            else GroupThen(DecimalValue(name), Parse(t[h + 1..]))
      else if c == '0' then
        // \0, \0o or \0oo: the character of that octal value.
        var n := if |t| > 2 && IsOctalDigit(t[2]) then (if |t| > 3 && IsOctalDigit(t[3]) then 2 else 1) else 0;
        Cons(Char(OctalValue(t[2..2 + n]) as char), Parse(t[2 + n..]))
      else if IsDigit(c) then
        if |t| > 2 && IsDigit(t[2]) then
          if IsOctalDigit(c) && IsOctalDigit(t[2]) && |t| > 3 && IsOctalDigit(t[3]) then
            // \ooo: an octal escape, at most 0o377.
            var v := OctalValue(t[1..4]);
            if v > 255 then None else Cons(Char(v as char), Parse(t[4..]))
          else GroupThen(DigitValue(c) * 10 + DigitValue(t[2]), Parse(t[3..]))
        else GroupThen(DigitValue(c), Parse(t[2..]))
      else
        match EscapeChar(c)
        case Some(e) => Cons(Char(e), Parse(t[2..]))
        case None =>
          if IsAsciiLetter(c) then None
          else Cons(Char('\\'), Cons(Char(c), Parse(t[2..])))
  }

  /** The text of a parsed template for a match with groups `groups`
      (group 0 is the whole match). */
  function Render(ps: seq<Piece>, groups: seq<string>): string
    requires WellFormed(ps) && |groups| == GroupCount + 1
  {
    if |ps| == 0 then ""
    else
      var head := match ps[0] case Char(c) => [c] case Group(i) => groups[i];
      head + Render(ps[1..], groups)
  }

  /** The text `pattern.sub(t, ...)` puts in place of a match, or `None`
      when the template raises. */
  function Substitute(t: string, groups: seq<string>): Option<string>
    requires |groups| == GroupCount + 1
  {
    match Parse(t)
    case None => None
    case Some(ps) => Some(Render(ps, groups))
  }

  /** The template characters of a literal text. */
  function Chars(u: string): (ps: seq<Piece>)
    ensures |ps| == |u| && WellFormed(ps)
    ensures forall k :: 0 <= k < |u| ==> ps[k] == Char(u[k])
  {
    if |u| == 0 then [] else [Char(u[0])] + Chars(u[1..])
  }

  lemma {:induction false} RenderAppend(ps: seq<Piece>, qs: seq<Piece>, groups: seq<string>)
    requires WellFormed(ps) && WellFormed(qs) && |groups| == GroupCount + 1
    ensures WellFormed(ps + qs)
    ensures Render(ps + qs, groups) == Render(ps, groups) + Render(qs, groups)
    decreases |ps|
  {
    if |ps| == 0 {
      assert ps + qs == qs;
    } else {
      assert (ps + qs)[1..] == ps[1..] + qs;
      RenderAppend(ps[1..], qs, groups);
    }
  }

  lemma {:induction false} RenderChars(u: string, groups: seq<string>)
    requires |groups| == GroupCount + 1
    ensures Render(Chars(u), groups) == u
    decreases |u|
  {
    if |u| > 0 {
      assert Chars(u)[1..] == Chars(u[1..]);
      RenderChars(u[1..], groups);
    }
  }

  /** The template `r` after the characters of a literal text `u`. */
  function WithPrefix(u: string, r: Option<seq<Piece>>): Option<seq<Piece>> {
    match r
    case None => None
    case Some(ps) => Some(Chars(u) + ps)
  }

  lemma ConsPrefix(u: string, r: Option<seq<Piece>>)
    requires |u| > 0
    ensures Cons(Char(u[0]), WithPrefix(u[1..], r)) == WithPrefix(u, r)
  {
    assert Chars(u) == [Char(u[0])] + Chars(u[1..]);
    match r
    case None =>
    case Some(ps) =>
      assert [Char(u[0])] + (Chars(u[1..]) + ps) == Chars(u) + ps;
  }

  /** A backslash-free text parses to its own characters. */
  lemma {:induction false} ParseLiteralPrefix(u: string, v: string)
    requires '\\' !in u
    ensures Parse(u + v) == WithPrefix(u, Parse(v))
    decreases |u|
  {
    if |u| == 0 {
      assert u + v == v;
      match Parse(v)
      case None =>
      case Some(ps) =>
        assert Chars(u) + ps == ps;
    } else {
      assert (u + v)[0] == u[0] && (u + v)[1..] == u[1..] + v;
      assert '\\' !in u[1..] by {
        forall k | 0 <= k < |u| - 1 ensures u[1..][k] != '\\' {
          assert u[1..][k] == u[k + 1];
        }
      }
      ParseLiteralPrefix(u[1..], v);
      ParseLiteralHead(u + v);
      ConsPrefix(u, Parse(v));
    }
  }

  lemma ParseLiteralHead(t: string)
    requires |t| > 0 && t[0] != '\\'
    ensures Parse(t) == Cons(Char(t[0]), Parse(t[1..]))
  {
  }

  /** Backslash-free text before the rest of a template is copied as it
      stands. */
  lemma SubstituteLiteralPrefix(u: string, v: string, groups: seq<string>)
    requires '\\' !in u && |groups| == GroupCount + 1
    ensures Substitute(u + v, groups) == (match Substitute(v, groups) case None => None case Some(x) => Some(u + x))
  {
    ParseLiteralPrefix(u, v);
    match Parse(v)
    case None =>
    case Some(ps) =>
      RenderAppend(Chars(u), ps, groups);
      RenderChars(u, groups);
  }

  /** A template without a backslash is its own substitution: this is the
      case in which `re.sub` behaves like a literal replacement. */
  lemma LiteralTemplate(t: string, groups: seq<string>)
    requires '\\' !in t && |groups| == GroupCount + 1
    ensures Substitute(t, groups) == Some(t)
  {
    SubstituteLiteralPrefix(t, "", groups);
    assert t + "" == t;
    assert Substitute("", groups) == Some("");
  }

  /** `\` followed by an ASCII letter that is not one of the escapes, after
      backslash-free text, makes the whole substitution raise (`bad escape`),
      whatever follows. */
  lemma BadEscapeRaises(u: string, c: char, v: string, groups: seq<string>)
    requires '\\' !in u && |groups| == GroupCount + 1
    requires IsAsciiLetter(c) && c != 'g' && EscapeChar(c).None?
    ensures Substitute(u + ['\\', c] + v, groups).None?
  {
    assert u + ['\\', c] + v == u + (['\\', c] + v);
    SubstituteLiteralPrefix(u, ['\\', c] + v, groups);
    var t := ['\\', c] + v;
    assert t[0] == '\\' && t[1] == c && |t| >= 2;
    assert Parse(t).None?;
  }

  /** `\t` between backslash-free texts becomes a TAB character. */
  lemma TabEscape(u: string, v: string, groups: seq<string>)
    requires '\\' !in u && '\\' !in v && |groups| == GroupCount + 1
    ensures Substitute(u + "\\t" + v, groups) == Some(u + "\t" + v)
  {
    assert u + "\\t" + v == u + ("\\t" + v);
    SubstituteLiteralPrefix(u, "\\t" + v, groups);
    TabThenLiteral(v, groups);
    assert u + ("\t" + v) == u + "\t" + v;
  }

  lemma TabThenLiteral(v: string, groups: seq<string>)
    requires '\\' !in v && |groups| == GroupCount + 1
    ensures Substitute("\\t" + v, groups) == Some("\t" + v)
  {
    var t := "\\t" + v;
    assert t[0] == '\\' && t[1] == 't' && t[2..] == v;
    LiteralTemplate(v, groups);
    ParseEscapeHead(t);
    var ps :| Parse(v) == Some(ps);
    RenderAppend([Char('\t')], ps, groups);
    assert Render([Char('\t')], groups) == "\t";
  }

  lemma ParseEscapeHead(t: string)
    requires |t| >= 2 && t[0] == '\\' && EscapeChar(t[1]).Some?
    ensures Parse(t) == Cons(Char(EscapeChar(t[1]).value), Parse(t[2..]))
  {
  }

  /** `\1` or `\2` not followed by a digit, between backslash-free texts,
      becomes the text of that group of the match. */
  lemma GroupEscape(u: string, d: char, v: string, groups: seq<string>)
    requires '\\' !in u && '\\' !in v && |groups| == GroupCount + 1
    requires d == '1' || d == '2'
    requires |v| == 0 || !IsDigit(v[0])
    ensures Substitute(u + ['\\', d] + v, groups) == Some(u + groups[DigitValue(d)] + v)
  {
    assert u + ['\\', d] + v == u + (['\\', d] + v);
    SubstituteLiteralPrefix(u, ['\\', d] + v, groups);
    GroupThenLiteral(d, v, groups);
    assert u + (groups[DigitValue(d)] + v) == u + groups[DigitValue(d)] + v;
  }

  lemma GroupThenLiteral(d: char, v: string, groups: seq<string>)
    requires '\\' !in v && |groups| == GroupCount + 1
    requires d == '1' || d == '2'
    requires |v| == 0 || !IsDigit(v[0])
    ensures Substitute(['\\', d] + v, groups) == Some(groups[DigitValue(d)] + v)
  {
    var t := ['\\', d] + v;
    assert t[0] == '\\' && t[1] == d && t[2..] == v;
    assert |t| > 2 ==> t[2] == v[0];
    LiteralTemplate(v, groups);
    ParseGroupHead(t);
    var ps :| Parse(v) == Some(ps);
    RenderAppend([Group(DigitValue(d))], ps, groups);
    assert Render([Group(DigitValue(d))], groups) == groups[DigitValue(d)];
  }

  lemma ParseGroupHead(t: string)
    requires |t| >= 2 && t[0] == '\\' && (t[1] == '1' || t[1] == '2')
    requires |t| == 2 || !IsDigit(t[2])
    ensures Parse(t) == Cons(Group(DigitValue(t[1])), Parse(t[2..]))
  {
  }
}
