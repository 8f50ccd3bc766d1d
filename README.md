# Confluence image embedding, modelled in Dafny

This project models the image-embedding resolver of
`setup-pack/technical/confluence_upload_and_embed_image.py`: the function
`insert_image` and its helpers `build_image_macro`, `_has_image_macro`,
`_replace_image_macro` and `_find_img_tag_pattern`, plus the small
suffix-to-content-type table `guess_mime`.

`insert_image` takes a page body in Confluence storage format, the name of an
uploaded attachment, an alt text, an optional anchor and an optional width. It
returns the new body and whether it changed, trying in order:

1. the body already refers to the attachment (`ri:filename="F"` or
   `ri:filename='F'`): with no alt text and no width nothing happens; otherwise
   the first `<ac:image>…</ac:image>` macro for the file is replaced by a
   freshly built one (or nothing happens when the macro pattern finds none);
2. the first legacy `<img src="F">` tag (with an optional `<p>` around it) is
   replaced by the macro;
3. the macro goes on its own line after the first occurrence of a non-empty
   anchor;
4. the macro goes on its own line after the first `</p>` that follows the
   first `<strong>Process diagram</strong>`;
5. a `Process diagram` heading and the macro are put in front of the body.

Modules, one file each:

- `wrappers.dfy` — `Option`, for `Optional[...]` arguments and "no match".
- `text.dfy` — `str.find`, `in`, the regex classes `\s` and `\b`, ASCII case
  folding for the case-insensitive literals, and `str(n)` for integers.
- `patterns.dfy` — the two regular expressions of the resolver as span
  matchers. `MatchAt` computes the match a backtracking engine reports at one
  start index, and `FirstMatch` gives the leftmost one. `StrictPath` and
  `LegacyPath` describe every way each regex can match, independently of any
  engine. Lemmas prove that every path is found, that what `MatchAt` reports
  is a path, and which path the engine prefers: the greedy `[^>]*` takes the
  last `ri:filename=` / `src=` before the tag's first `>`.
- `image_macro.dfy` — `build_image_macro` and `_has_image_macro`, and how a
  built macro relates to both detectors.
- `embed.dfy` — `insert_image`: one lemma per branch giving the exact output,
  and the idempotence results. The function also exists "as written", with
  the macro passed to `re.sub` as a template (see Findings).
- `re_template.dfy` — the replacement-template language of Python's `re.sub`
  (escapes, group references, errors). It is needed to state the finding.
- `mime.dfy` — `guess_mime`.

Widths are `Option<int>`. As in Python, a width counts as given when it is
present and non-zero. Negative widths are written with a minus sign, because
the source does not reject them. The anchor is `Option<string>`, and an empty
anchor is the same as none.

The model follows Python 3.12 and 3.13. Python 3.14 changed `PurePath.suffix`:
there a name ending in a dot (`file.`) has the suffix `.`, and a name whose only
dots are leading (`..png`) has none, so `guess_mime` differs for such names.

## Model

| member | source | states |
|---|---|---|
| `Text.Find` | setup-pack/technical/confluence_upload_and_embed_image.py:251-252 | `str.find`: -1 exactly when the text does not occur; otherwise the least index where it occurs |
| `Text.FindFrom` | setup-pack/technical/confluence_upload_and_embed_image.py:259-260 | `str.find(t, start)`: -1 means no occurrence at or after `start`; otherwise the first one from `start` |
| `Text.SkipSpaces` | setup-pack/technical/confluence_upload_and_embed_image.py:211 | a greedy `\s*` passes only whitespace and stops at the end or at the first character that is not whitespace |
| `Text.SkipSpacesTo` | setup-pack/technical/confluence_upload_and_embed_image.py:222 | a greedy `\s*` over a run of whitespace ends exactly where the run ends |
| `Text.IntToDecimal` | setup-pack/technical/confluence_upload_and_embed_image.py:191 | `str(int(width))` is a leading `-` exactly for negative widths, then digits without leading zeros that read back as the absolute value |
| `Text.DecimalRoundTrip` | setup-pack/technical/confluence_upload_and_embed_image.py:191 | reading back the decimal digits written for a width gives the width |
| `Text.IsAtIsSlice` | setup-pack/technical/confluence_upload_and_embed_image.py:201-204 | the substring test used by `in` and `find` is slice equality |
| `Text.ContainsTransitive` | setup-pack/technical/confluence_upload_and_embed_image.py:201-204 | a substring of a substring is a substring |
| `Patterns.MatchAt` | setup-pack/technical/confluence_upload_and_embed_image.py:208-224 | a reported match starts where it is tried, and its quote, filename and end lie in order within the body |
| `Patterns.FirstMatch` | setup-pack/technical/confluence_upload_and_embed_image.py:214 | `pattern.search`: no match exactly when the pattern matches nowhere; otherwise the match at the least start index |
| `Patterns.LeftmostUnique` | setup-pack/technical/confluence_upload_and_embed_image.py:216 | there is only one leftmost match, so `count=1` replaces a well-defined span |
| `Patterns.StrictPathFound` | setup-pack/technical/confluence_upload_and_embed_image.py:210-213 | every way the macro pattern can match at an index is found there, with an attribute position at least as late |
| `Patterns.StrictMatchIsPath` | setup-pack/technical/confluence_upload_and_embed_image.py:210-213 | what is reported for the macro pattern is a real match of it: `<ac:image\b[^>]*>\s*<ri:attachment\b[^>]*\bri:filename=(['"])F\1[^>]*/>\s*</ac:image>`, case-insensitively |
| `Patterns.StrictPathUnique` | setup-pack/technical/confluence_upload_and_embed_image.py:211 | given its start and attribute position, a macro match is fixed: each `[^>]*` ends at the first `>` |
| `Patterns.LegacyPathFound` | setup-pack/technical/confluence_upload_and_embed_image.py:219-224 | every way the `<img>` pattern can match at an index is found there, with an attribute position at least as late |
| `Patterns.LegacyMatchIsPath` | setup-pack/technical/confluence_upload_and_embed_image.py:219-224 | what is reported for the `<img>` pattern is a real match that takes all whitespace after the tag, then `</p>` whenever it follows |
| `Patterns.LegacyHeadFound` | setup-pack/technical/confluence_upload_and_embed_image.py:222 | the optional `<p>\s*` is taken whenever it leads to `<img`; otherwise `<img` must start the match |
| `Patterns.ParagraphIsNotImg` | setup-pack/technical/confluence_upload_and_embed_image.py:222 | `<p>` and `<img` cannot start at the same index, so the two alternatives of the optional group never compete |
| `ImageMacro.AltAttribute` | setup-pack/technical/confluence_upload_and_embed_image.py:190 | the alt attribute is written exactly when the alt text is non-empty; otherwise it contributes no text |
| `ImageMacro.WidthAttribute` | setup-pack/technical/confluence_upload_and_embed_image.py:191 | the width attribute is written exactly when a non-zero width is given; otherwise it contributes no text |
| `ImageMacro.BuildImageMacro` | setup-pack/technical/confluence_upload_and_embed_image.py:186-196 | `build_image_macro`; its contract is carried by `MacroLayout` (the pieces at their offsets), `BuiltMacroIsReferenced`, `BuiltMacroMatches` (the macro pattern finds it when the alt text has no `>`) and `AltIsNotEscaped` (alt text and filename are written verbatim) |
| `ImageMacro.AltIsNotEscaped` | setup-pack/technical/confluence_upload_and_embed_image.py:186-196 | the alt text is not escaped, so an alt text holding a quote builds the same macro as a different alt text plus a width |
| `ImageMacro.HasImageMacro` | setup-pack/technical/confluence_upload_and_embed_image.py:199-205 | `_has_image_macro`, the four case-sensitive `in` tests; its contract is carried by `HasImageMacroIff` (exactly the two quoted `ri:filename=` forms) |
| `ImageMacro.HasImageMacroIff` | setup-pack/technical/confluence_upload_and_embed_image.py:199-205 | a body refers to the file exactly when it contains `ri:filename="F"` or `ri:filename='F'`, case-sensitively; the `ri:attachment` tests add nothing |
| `ImageMacro.BuiltMacroIsReferenced` | setup-pack/technical/confluence_upload_and_embed_image.py:192-202 | any body holding a built macro refers to its file |
| `ImageMacro.BuiltMacroMatches` | setup-pack/technical/confluence_upload_and_embed_image.py:186-213 | the macro pattern matches any body holding a built macro whose alt text has no `>` |
| `ImageMacro.MacroLayout` | setup-pack/technical/confluence_upload_and_embed_image.py:192-196 | where a built macro sits in a body: `<ac:image`, the attributes, `>`, the attachment element, `</ac:image>` |
| `Embed.Splice` | setup-pack/technical/confluence_upload_and_embed_image.py:216 | replacing a span keeps the text before and after it, puts the replacement at the span's start and changes the length by the difference |
| `Embed.InsertAfter` | setup-pack/technical/confluence_upload_and_embed_image.py:254 | inserting after index `k` keeps the text before and after `k` and puts the macro between two newlines at `k + 1` |
| `Embed.ReplaceFirst` | setup-pack/technical/confluence_upload_and_embed_image.py:214-216 | the changed flag holds exactly when the pattern matches; when it is false the body is returned unchanged |
| `Embed.ReplaceAtLeftmost` | setup-pack/technical/confluence_upload_and_embed_image.py:216 | only the leftmost match is replaced; the text before and after it is kept |
| `Embed.InsertImage` | setup-pack/technical/confluence_upload_and_embed_image.py:227-265 | the corrected version, with the macro spliced in literally (see Findings); it is total. The result is unchanged exactly when the body already refers to the file and either no alt text or width is given or the macro pattern matches nowhere; an unchanged result is the input byte for byte |
| `Embed.InsertImageAsWritten` | setup-pack/technical/confluence_upload_and_embed_image.py:227-265 | `insert_image` as the source writes it, with the macro read as a replacement template: it raises only where it reaches a `sub` call; when it does not raise, it agrees with the corrected version on when the body is left unchanged, and then leaves it byte for byte |
| `Embed.PlaceMacro` | setup-pack/technical/confluence_upload_and_embed_image.py:250-265 | the anchor, heading and prepend tail of `insert_image`; its contract is carried by `AnchorInsertion`, `HeadingInsertion`, `PrependFallback` and `EmptyAnchorIgnored` (the exact output of each case) and `ChangedHoldsMacro` (the macro is always placed) |
| `Embed.MacroReplaced` | setup-pack/technical/confluence_upload_and_embed_image.py:240-242 | referenced file, alt text or width given: the result is the body with its leftmost macro span replaced by the new macro; old attributes are not merged in |
| `Embed.ImgTagReplaced` | setup-pack/technical/confluence_upload_and_embed_image.py:245-248 | unreferenced file with an `<img>` tag: the leftmost tag span, with its `<p>`, spaces and `</p>`, becomes the macro |
| `Embed.AnchorInsertion` | setup-pack/technical/confluence_upload_and_embed_image.py:250-254 | with no reference and no tag, and an anchor that occurs: the macro goes on its own line right after the anchor's first occurrence |
| `Embed.EmptyAnchorIgnored` | setup-pack/technical/confluence_upload_and_embed_image.py:250 | an empty anchor gives the same result as no anchor |
| `Embed.HeadingInsertion` | setup-pack/technical/confluence_upload_and_embed_image.py:256-262 | otherwise, with a marker followed by a `</p>`: the macro goes on its own line right after the first `</p>` at or after the first marker |
| `Embed.PrependFallback` | setup-pack/technical/confluence_upload_and_embed_image.py:264-265 | otherwise the heading paragraph and the macro are put in front of the unchanged body |
| `Embed.ChangedHoldsMacro` | setup-pack/technical/confluence_upload_and_embed_image.py:238-265 | every changed result contains the macro built from the arguments |
| `Embed.ResultIsReferenced` | setup-pack/technical/confluence_upload_and_embed_image.py:238-265 | whatever branch is taken, the result refers to the file |
| `Embed.PlainRerunIsNoOp` | setup-pack/technical/confluence_upload_and_embed_image.py:20-22 | a second run with no alt text and no width returns the first result unchanged, with `changed` false |
| `Embed.ChangedBodyIsRewritten` | setup-pack/technical/confluence_upload_and_embed_image.py:240-242 | a second run with an alt text or a width rewrites a body the first run changed, when the first alt text has no `>` |
| `Embed.ReplaceFirstAsWritten` | setup-pack/technical/confluence_upload_and_embed_image.py:214-216 | `pattern.sub(macro, …, count=1)` with the macro read as a template: when it does not raise, it reports a change exactly when the pattern matches |
| `Embed.AsWrittenAgreesWithoutBackslash` | setup-pack/technical/confluence_upload_and_embed_image.py:216 | when neither the alt text nor the filename holds a backslash, the code as written and the literal splice agree on every body |
| `Embed.SubstitutingBranch` | setup-pack/technical/confluence_upload_and_embed_image.py:240-248 | the bodies on which `insert_image` reaches a `sub` call: both versions come down to one pattern's replacement |
| `Embed.BadEscapeRaisesAsWritten` | setup-pack/technical/confluence_upload_and_embed_image.py:216 | an alt text such as `C:\data` makes the code as written raise wherever it reaches `sub`, where the literal splice succeeds |
| `Embed.TabEscapeAsWritten` | setup-pack/technical/confluence_upload_and_embed_image.py:247 | an alt text holding `\t` is written with a TAB in its place wherever the code reaches `sub` |
| `ReTemplate.Parse` | setup-pack/technical/confluence_upload_and_embed_image.py:216 | a parsed replacement template only refers to the pattern's groups 0 to 2 |
| `ReTemplate.Substitute` | setup-pack/technical/confluence_upload_and_embed_image.py:216 | the text `sub` puts in place of a match, or the `re.error` it raises; its contract is carried by `LiteralTemplate`, `BadEscapeRaises`, `TabEscape` and `GroupEscape` |
| `ReTemplate.LiteralTemplate` | setup-pack/technical/confluence_upload_and_embed_image.py:216 | a template without a backslash is inserted as it stands |
| `ReTemplate.BadEscapeRaises` | setup-pack/technical/confluence_upload_and_embed_image.py:216 | a backslash before an ASCII letter that is not an escape makes `sub` raise |
| `ReTemplate.TabEscape` | setup-pack/technical/confluence_upload_and_embed_image.py:247 | `\t` in a template becomes a TAB character |
| `ReTemplate.GroupEscape` | setup-pack/technical/confluence_upload_and_embed_image.py:247 | `\1` or `\2` in a template becomes the quote or the filename the match found |
| `Mime.Suffix` | setup-pack/technical/confluence_upload_and_embed_image.py:73 | `Path.suffix`: non-empty exactly when the last `.` of the name is neither its first nor its last character, and then the name from that dot on |
| `Mime.LowerText` | setup-pack/technical/confluence_upload_and_embed_image.py:73 | `.lower()` on the suffix: same length, each character ASCII-lowered; with `KnownExtension`, a listed extension in any ASCII case lowers to its table key |
| `Mime.GuessMime` | setup-pack/technical/confluence_upload_and_embed_image.py:72-81 | the content type is one of the table's types or `application/octet-stream` |
| `Mime.FallbackIffUnknown` | setup-pack/technical/confluence_upload_and_embed_image.py:74-81 | the fallback type is returned exactly for suffixes the table does not list |
| `Mime.KnownExtension` | setup-pack/technical/confluence_upload_and_embed_image.py:72-81 | a name with a non-empty stem and a listed extension, in any case, gets that extension's type |
| `Mime.NoSuffixAtEdges` | setup-pack/technical/confluence_upload_and_embed_image.py:73 | a name whose last dot is its first or last character (`.png`, `file.`) has no suffix and gets the fallback type |

## Left out

- `upload_attachment`, `get_page_storage`, `update_page_storage`, `confluence_auth` and `main`: HTTP requests, argument parsing, printing and exit codes. The resolver is a pure function of its arguments; the page version increment in `main` is not modelled.
- `load_env_from_technical_dir`: reads a file and writes the process environment.
- `upload_confluence_attachment.py`, `delete_confluence_attachment.py` and `download_confluence_attachment.py`: command-line wrappers around REST calls. Their environment loading repeats `load_env_from_technical_dir`, which is left out; the upload script's content-type table repeats `guess_mime`.
- General regular expressions: only the two fixed patterns are modelled, as hand-written matchers.
- Case-insensitive matching folds ASCII letters only. Python's `re.IGNORECASE` on `str` patterns also folds non-ASCII characters, for example the Kelvin sign with `k`.
- `\b` treats ASCII letters, digits and `_` as word characters. Python also counts non-ASCII letters and digits.
- Python strings can hold lone surrogate code points; Dafny's `char` cannot.
- `guess_mime` receives only the final path component. `str.lower` is modelled on ASCII letters; no other character lowers to a letter of the table's keys.
- `Embed.ChangedBodyIsRewritten`: requires the first alt text to have no `>`. An alt text with `>` ends the pattern's `[^>]*` inside the macro, so the source itself may not find the macro again.
- `ImageMacro.BuildImageMacro`, `ImageMacro.HasImageMacro`, `Embed.PlaceMacro` and `ReTemplate.Substitute` have no contract of their own; the lemmas named in their rows state what they compute.

## Findings

| source | as written | input that shows it | evidently intended | confidence | as-written member | corrected member |
|---|---|---|---|---|---|---|
| setup-pack/technical/confluence_upload_and_embed_image.py:216 | `pat.sub(new_macro, …)` and `img_pat.sub(macro, …)` (line 247) read the built macro as a replacement template, so backslashes in the alt text or filename are escapes | alt text `C:\data` on a body with an `<img src="F">` tag: `re.error` (bad escape `\d`); alt text `C:\temp`: a TAB is written instead of `\t` | the macro spliced in literally, for example by passing a function as the replacement | not executed | `Embed.InsertImageAsWritten`, `Embed.BadEscapeRaisesAsWritten` | `Embed.InsertImage` |
