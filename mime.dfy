/** `guess_mime`: the content type sent with an uploaded file, chosen from
    the suffix of the file's name. */
module Mime {
  import opened Text

  /** The index of the last `c` before index `k`, or -1 (`str.rfind`). */
  function LastIndexBefore(s: string, c: char, k: nat): (r: int)
    requires k <= |s|
    ensures -1 <= r < k
    ensures r != -1 ==> s[r] == c
    ensures forall j :: r < j < k ==> s[j] != c
  {
    if k == 0 then -1
    else if s[k - 1] == c then k - 1
    else LastIndexBefore(s, c, k - 1)
  }

  /** `PurePath.suffix` of a final path component: from its last `.`, when
      that dot is neither the first nor the last character. */
  function Suffix(name: string): (r: string)
    ensures |r| == 0 || (|r| >= 2 && r[0] == '.' && |r| < |name| && IsAt(name, r, |name| - |r|))
    ensures forall j :: 0 < j < |r| ==> r[j] != '.'
    ensures var i := LastIndexBefore(name, '.', |name|);
      (|r| > 0 <==> 0 < i < |name| - 1) && (|r| > 0 ==> r == name[i..])
  {
    var i := LastIndexBefore(name, '.', |name|);
    if 0 < i < |name| - 1 then
      IsAtSuffix(name[..i], name[i..]);
      assert name[..i] + name[i..] == name;
      name[i..]
    else ""
  }

  /** `str.lower` on ASCII letters; other characters are left as they are.
      For the keys of `MimeTypes` this is exact: no other character lowers
      to one of their letters. */
  function LowerText(s: string): (r: string)
    ensures |r| == |s| && forall k :: 0 <= k < |s| ==> r[k] == Lower(s[k])
  {
    if |s| == 0 then "" else [Lower(s[0])] + LowerText(s[1..])
  }

  const MimeTypes: map<string, string> := map[
    ".png" := "image/png",
    ".jpg" := "image/jpeg",
    ".jpeg" := "image/jpeg",
    ".gif" := "image/gif",
    ".webp" := "image/webp",
    ".svg" := "image/svg+xml"
  ]

  const Fallback: string := "application/octet-stream"

  /** `guess_mime(file_path)` for a file whose final path component is
      `name`. */
  function GuessMime(name: string): (r: string)
    ensures r == Fallback || r in MimeTypes.Values
  {
    var s := LowerText(Suffix(name));
    if s in MimeTypes then MimeTypes[s] else Fallback
  }

  /** The fallback is the answer exactly for the suffixes the table does
      not know. */
  lemma FallbackIffUnknown(name: string)
    ensures GuessMime(name) == Fallback <==> LowerText(Suffix(name)) !in MimeTypes
  {
    var s := LowerText(Suffix(name));
    if s in MimeTypes {
      assert MimeTypes[s] != Fallback by {
        assert Fallback !in MimeTypes.Values;
      }
    }
  }

  /** Every key of the table is a dot, then lower-case letters. */
  predicate IsExtension(e: string) {
    |e| >= 2 && e[0] == '.' && forall j :: 0 < j < |e| ==> 'a' <= e[j] <= 'z'
  }

  lemma KeysAreExtensions()
    ensures forall e :: e in MimeTypes ==> IsExtension(e)
  {
    forall e | e in MimeTypes ensures IsExtension(e) {
      assert e == ".png" || e == ".jpg" || e == ".jpeg" || e == ".gif" || e == ".webp" || e == ".svg";
    }
  }

  /** A name with a non-empty stem and a known extension in any mix of
      cases gets the type the table gives the extension. */
  lemma KnownExtension(stem: string, e: string, written: string)
    requires |stem| > 0 && e in MimeTypes
    requires |written| == |e| && forall j :: 0 <= j < |e| ==> Lower(written[j]) == e[j]
    ensures GuessMime(stem + written) == MimeTypes[e]
  {
    KeysAreExtensions();
    var name := stem + written;
    assert written[0] == '.' by {
      assert Lower(written[0]) == '.';
    }
    assert forall j :: 0 < j < |written| ==> written[j] != '.' by {
      forall j | 0 < j < |written| ensures written[j] != '.' {
        assert Lower(written[j]) == e[j];
      }
    }
    LastDotOfWritten(stem, written, |name|);
    assert Suffix(name) == name[|stem|..];
    assert name[|stem|..] == written;
    assert LowerText(written) == e;
  }

  /** The last dot of `stem + w` is the first character of `w`. */
  lemma {:induction false} LastDotOfWritten(stem: string, w: string, k: nat)
    requires |w| >= 2 && w[0] == '.' && (forall j :: 0 < j < |w| ==> w[j] != '.')
    requires |stem| < k <= |stem + w|
    ensures LastIndexBefore(stem + w, '.', k) == |stem|
    decreases k
  {
    var s := stem + w;
    if k - 1 == |stem| {
      assert s[k - 1] == w[0];
    } else {
      assert s[k - 1] == w[k - 1 - |stem|];
      LastDotOfWritten(stem, w, k - 1);
    }
  }

  /** A dot at the start of the name (a hidden file such as `.png`) or at its
      end does not begin a suffix. */
  lemma NoSuffixAtEdges(name: string)
    requires LastIndexBefore(name, '.', |name|) == 0 || LastIndexBefore(name, '.', |name|) == |name| - 1
    ensures |Suffix(name)| == 0 && GuessMime(name) == Fallback
  {
    KeysAreExtensions();
    assert |LowerText(Suffix(name))| == 0;
  }
}
