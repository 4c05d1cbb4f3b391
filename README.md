# HTML decomposer decisions, modelled in Dafny

`ChupaText::Decomposers::HTML` (`lib/chupa-text/decomposers/html.rb`) turns
an HTML or XHTML document into plain text. Most of its work is delegated:
Nokogiri parses the markup and NKF guesses encodings. This model covers the
decisions the decomposer makes itself:

- `target?` decides whether a document is handled, from its extension and
  MIME type only (`HtmlDecomposer.IsTarget`).
- `guess_encoding` picks the encoding handed to the parser. It is a `case`
  over three regular expressions, with NKF as the fallback:
  - an XML declaration at the very start of the text (`XmlDeclaration`);
  - a `<meta http-equiv="Content-Type" content="...">` tag, whose `charset`
    parameter is normalized (`ContentTypeMeta`);
  - a `<meta ... charset="...">` tag, whose value is normalized
    (`CharsetMeta`);
  - otherwise the guesser (`EncodingGuess.GuessEncoding`).

  The first expression that matches decides. A Content-Type tag without a
  charset parameter therefore yields nil, and no later rule is tried.
- `normalize_charset` maps `x-sjis` and `shift_jis`/`shift-jis`, in any
  letter case, to `Windows-31J` (`CharsetNormalizer`).
- The body text is cleaned with `gsub(/^\s+|\s+$/, '')` (`LineStrip`).

Each regular expression is modelled twice:

- a ghost predicate that says when the expression matches at given
  positions;
- an executable scan that follows Ruby's search order. The leftmost start
  wins. A lazy `.+?` stops at its first possible end. A greedy `[^>]*` or
  `\s+` tries its longest run first and gives back characters.

Lemmas prove that the scan returns the capture of the match Ruby would pick.
The `<meta\s[^>]*` prefix that two of the rules share is one generic search
(`MetaTag`), parameterised by the rest of the expression.

`gsub(/^\s+|\s+$/, '')` strips every line, not only the whole text, because
`^` and `$` hold at every line boundary. The model proves the following:

- the result keeps every non-whitespace character in order and deletes only
  whitespace;
- no line of the result starts or ends with whitespace, and no line is
  empty;
- the texts left unchanged are exactly the clean ones, and stripping is
  idempotent.

`LineStrip.RunRemainder` says what each whitespace run becomes. A run at
the start or end of the text disappears, and a run without a line feed
stays as it is. A run between two lines keeps one line feed, unless its
last line feed directly follows another line feed: then the run
disappears and the lines around it are joined (`"a\n\nb"` becomes `"ab"`,
`LineStrip.StripExampleBlankLine`, while `"a\n\n \nb"` becomes `"a\nb"`,
`LineStrip.StripExampleSpacedBlankLine`). The code behaves this way, and
the model follows the code.

`Scenarios` restates the repository's encoding tests as lemmas. Each test
document (head, tag, remainder) is covered for every remainder that follows
the tag, with the following exceptions:

- the `<meta charset>` case requires that no further `<meta` tag follows;
- the test without any tag is stated for its own text.

## Model

| member | source | states |
|---|---|---|
| HtmlDecomposer.IsTarget | lib/chupa-text/decomposers/html.rb:27-35 | true exactly when the extension is `htm`, `html` or `xhtml`, or the MIME type is `text/html` or `application/xhtml+xml`; nil fields never match |
| HtmlDecomposer.TargetByEitherField | lib/chupa-text/decomposers/html.rb:33-34 | either field alone makes a document a target, whatever the other holds; with both nil it is not one |
| HtmlDecomposer.TargetIsCaseSensitive | lib/chupa-text/decomposers/html.rb:33-34 | `include?` compares exactly, so `HTML` and `TEXT/HTML` are not targets |
| HtmlDecomposer.TargetTests | test/test-html.rb:39-73 | `html`, `htm` and `xhtml` are targets and `txt` is not; `text/html` and `application/xhtml+xml` are targets and `text/plain` is not |
| HtmlDecomposer.BodyText | lib/chupa-text/decomposers/html.rb:45-50 | with a body element, its text has every line stripped while all non-whitespace characters stay in order; without one, the body is empty |
| CharsetNormalizer.XSjisBecomesWindowsThirtyOneJ | lib/chupa-text/decomposers/html.rb:82-83 | `x-sjis` in any letter case becomes `Windows-31J`, through the recursive call on `Shift_JIS` |
| CharsetNormalizer.NormalizeCharset | lib/chupa-text/decomposers/html.rb:80-89 | the label comes back unchanged or as `Windows-31J`, and the result matches neither pattern; closed form in `NormalizeCharsetCases`, idempotent by `NormalizeCharsetIdempotent` |
| CharsetNormalizer.ShiftJisLabel | lib/chupa-text/decomposers/html.rb:83-85 | `Shift_JIS` matches `\Ashift[_-]jis\z`/i and not `\Ax-sjis\z`/i, so the recursion stops after one step |
| CharsetNormalizer.NormalizeCharsetCases | lib/chupa-text/decomposers/html.rb:80-89 | the result is `Windows-31J` when the whole label is `x-sjis` or `shift`, `_` or `-`, `jis` in any letter case; otherwise it is the label unchanged |
| CharsetNormalizer.NormalizeCharsetFixedPoints | lib/chupa-text/decomposers/html.rb:86-87 | a label comes back unchanged exactly when it matches neither pattern |
| CharsetNormalizer.WindowsThirtyOneJIsCanonical | lib/chupa-text/decomposers/html.rb:85 | `Windows-31J` matches neither pattern |
| CharsetNormalizer.NormalizeCharsetCanonical | lib/chupa-text/decomposers/html.rb:80-89 | no result matches either pattern |
| CharsetNormalizer.NormalizeCharsetIdempotent | lib/chupa-text/decomposers/html.rb:80-89 | normalizing twice is normalizing once |
| CharsetNormalizer.NormalizeCharsetExamples | test/test-html.rb:237-247 | `x-sjis`, `X-SJIS`, `Shift-JIS` and `Shift_JIS` become `Windows-31J`; `EUC-JP` stays |
| XmlDeclaration.EncodingAttribute | lib/chupa-text/decomposers/html.rb:60 | a name it yields comes from `encoding=`, a quote, a run of name characters and the same quote again |
| XmlDeclaration.EncodingAttributeComplete | lib/chupa-text/decomposers/html.rb:60 | every such attribute is found with its whole name |
| XmlDeclaration.LazyScan | lib/chupa-text/decomposers/html.rb:60 | the lazy `.+?` ends at the first position on the first line where the attribute matches, or no such position exists |
| XmlDeclaration.DeclaredEncoding | lib/chupa-text/decomposers/html.rb:59-61 | a name it yields is captured by a match of the whole expression; none exactly when nothing matches, and the earliest match's name otherwise (`DeclaredEncodingNone`, `DeclaredEncodingIsFirstMatch`) |
| XmlDeclaration.DeclaredEncodingNone | lib/chupa-text/decomposers/html.rb:60 | the rule fails exactly when no declaration match exists |
| XmlDeclaration.DeclaredEncodingIsFirstMatch | lib/chupa-text/decomposers/html.rb:60-61 | the rule returns the name captured at the earliest match, verbatim |
| MetaTag.LongestRun | lib/chupa-text/decomposers/html.rb:62 | the largest position in a range where the rest of the expression matches, or none |
| MetaTag.PrefixEndsBeforeGt | lib/chupa-text/decomposers/html.rb:62 | a `[^>]*` run ends at or before the first `>` |
| MetaTag.SearchFrom | lib/chupa-text/decomposers/html.rb:62-64 | a (start, tail position) pair it yields is a match of the whole expression at or after the starting point; preferred by `SearchFromPreferred` |
| MetaTag.SearchFromPreferred | lib/chupa-text/decomposers/html.rb:62-64 | the search returns a match with no match starting earlier and none with a longer `[^>]*` at the same start; when it fails, no match exists |
| MetaTag.Capture | lib/chupa-text/decomposers/html.rb:62-64 | a capture it yields is the tail's capture at some match; absent exactly when nothing matches (`CaptureNone`), the preferred match's otherwise (`CaptureOfPreferred`) |
| MetaTag.CaptureNone | lib/chupa-text/decomposers/html.rb:72 | the capture is absent exactly when the expression matches nowhere |
| MetaTag.CaptureOfPreferred | lib/chupa-text/decomposers/html.rb:72-73 | the capture is the one of the preferred match |
| ContentTypeMeta.Tail | lib/chupa-text/decomposers/html.rb:63-64 | the `http-equiv=…content=(['"])(.+?)\2` tail at a position; sound by `TailSound`, complete by `TailComplete` |
| ContentTypeMeta.TailSound | lib/chupa-text/decomposers/html.rb:63-64 | a value the tail yields comes from a match of `http-equiv=(['"])content-type\1\s+content=(['"])(.+?)\2` |
| ContentTypeMeta.TailComplete | lib/chupa-text/decomposers/html.rb:63-64 | every tail match is found, with the lazy capture ending at the first closing quote |
| ContentTypeMeta.MetaMatchIsEngineMatch | lib/chupa-text/decomposers/html.rb:62-64 | a match of the whole Content-Type expression is a match of the shared `<meta` search |
| ContentTypeMeta.EngineMatchIsMetaMatch | lib/chupa-text/decomposers/html.rb:62-64 | a match of the shared search is a match of the whole Content-Type expression |
| ContentTypeMeta.Content | lib/chupa-text/decomposers/html.rb:62-65 | `$3` of the Content-Type expression; none exactly when nothing matches (`ContentNone`), the preferred match's `content` value otherwise (`ContentOfPreferred`) |
| ContentTypeMeta.ContentNone | lib/chupa-text/decomposers/html.rb:62-64 | no `content` value is captured exactly when the expression matches nowhere |
| ContentTypeMeta.ContentOfPreferred | lib/chupa-text/decomposers/html.rb:62-65 | `$3` is the `content` value of the preferred match |
| ContentTypeMeta.Parameters | lib/chupa-text/decomposers/html.rb:66 | `split(/;\s*/, 2)` gives no second part without a `;`; otherwise the part after the first `;` and the whitespace that follows it |
| ContentTypeMeta.FindCharsetParameter | lib/chupa-text/decomposers/html.rb:68 | finds the leftmost `\bcharset=` followed by a name, or reports that there is none |
| ContentTypeMeta.CharsetParameter | lib/chupa-text/decomposers/html.rb:67-68 | `$1` of `\bcharset=([a-zA-Z0-9_-]+)`: the whole name at the leftmost match, nil exactly when nothing matches (`CharsetParameterIsLeftmost`) |
| ContentTypeMeta.CharsetParameterIsLeftmost | lib/chupa-text/decomposers/html.rb:68-69 | `$1` is the whole name at the leftmost match; nil exactly when nothing matches |
| ContentTypeMeta.CharsetOfContent | lib/chupa-text/decomposers/html.rb:65-71 | the branch's answer for a `content` value: nil exactly without `;` or charset parameter (`CharsetOfContentNone`), an already normalized name otherwise (`CharsetOfContentNormalized`) |
| ContentTypeMeta.CharsetOfContentNone | lib/chupa-text/decomposers/html.rb:66-71 | the rule yields nil exactly when there is no `;` or no charset parameter after it |
| ContentTypeMeta.CharsetOfContentNormalized | lib/chupa-text/decomposers/html.rb:68-69 | the yielded name is already normalized |
| CharsetMeta.Tail | lib/chupa-text/decomposers/html.rb:72 | the `charset=(['"])(.+?)\1` tail at a position; yields a value exactly at a tail match (`TailCharacterized`) |
| CharsetMeta.TailCharacterized | lib/chupa-text/decomposers/html.rb:72 | the tail `charset=(['"])(.+?)\1` yields a value exactly at a match, capturing up to the first closing quote |
| CharsetMeta.Value | lib/chupa-text/decomposers/html.rb:72-73 | `$2` of the `<meta charset>` expression; none exactly when nothing matches (`ValueNone`), the preferred match's quoted value otherwise (`ValueOfPreferred`) |
| CharsetMeta.ValueNone | lib/chupa-text/decomposers/html.rb:72 | no value is captured exactly when the expression matches nowhere |
| CharsetMeta.ValueOfPreferred | lib/chupa-text/decomposers/html.rb:72-73 | `$2` is the quoted value of the preferred match |
| EncodingGuess.DecidingRule | lib/chupa-text/decomposers/html.rb:58-77 | the branch of the `case` a text takes; it is the first whose expression matches (`DecidingRuleMatches`) |
| EncodingGuess.GuessEncoding | lib/chupa-text/decomposers/html.rb:58-78 | `guess_encoding`: each branch's answer is given by `DeclarationDecides`, `ContentTypeDecides`, `CharsetTagDecides` and `GuesserDecidesLast`; nil only as `GuessEncodingNil` says |
| EncodingGuess.DecidingRuleMatches | lib/chupa-text/decomposers/html.rb:59-77 | each branch decides exactly when its expression matches and no earlier one does |
| EncodingGuess.DeclarationDecides | lib/chupa-text/decomposers/html.rb:60-61 | an XML declaration decides with its name, verbatim, whatever tags follow |
| EncodingGuess.ContentTypeDecides | lib/chupa-text/decomposers/html.rb:62-71 | with no declaration, a Content-Type tag decides with its normalized charset parameter, or with nil |
| EncodingGuess.CharsetTagDecides | lib/chupa-text/decomposers/html.rb:72-74 | with neither of the first two, a `<meta charset>` tag decides with its value normalized |
| EncodingGuess.GuesserDecidesLast | lib/chupa-text/decomposers/html.rb:75-76 | the guesser is used exactly when no expression matches; otherwise its answer does not matter |
| EncodingGuess.GuessEncodingNil | lib/chupa-text/decomposers/html.rb:62-71 | the answer is nil exactly when a Content-Type tag decides without a charset parameter |
| EncodingGuess.MetaAnswersNormalized | lib/chupa-text/decomposers/html.rb:62-74 | answers from the two meta-tag rules are already normalized |
| LineStrip.LastLineFeed | lib/chupa-text/decomposers/html.rb:47 | the last line feed in a range, where a backtracking `\s+$` can end |
| LineStrip.MatchAt | lib/chupa-text/decomposers/html.rb:47 | a match at a position covers whitespace only |
| LineStrip.MatchAtIsPreferred | lib/chupa-text/decomposers/html.rb:47 | the match is `^\s+` when it applies; otherwise it is the longest `\s+` that `$` accepts |
| LineStrip.StripFrom | lib/chupa-text/decomposers/html.rb:47 | the gsub's output from a position on, trying `MatchAt` at each position; each run becomes its `RunRemainder` (`StripFromRun`), other characters are copied (`StripFromCopies`) |
| LineStrip.Strip | lib/chupa-text/decomposers/html.rb:47 | the line-47 `gsub` on the whole body text; clean by `StripClean`, idempotent by `StripIdempotent`, deleting only whitespace by `StripDeletesOnlyWhitespace` |
| LineStrip.RunRemainder | lib/chupa-text/decomposers/html.rb:47 | what a maximal whitespace run becomes: nothing at either end of the text, itself without a line feed, otherwise one line feed or, when its last line feed follows another, nothing (`StripFromRun`, `RunRemainderShape`) |
| LineStrip.StripFromKeepsVisible | lib/chupa-text/decomposers/html.rb:47 | the non-whitespace characters of the result are those of the input, in order |
| LineStrip.StripFromDeletes | lib/chupa-text/decomposers/html.rb:47 | the result is the input with some characters deleted |
| LineStrip.StripFromCopies | lib/chupa-text/decomposers/html.rb:47 | where no match starts, the text is copied |
| LineStrip.StripFromRun | lib/chupa-text/decomposers/html.rb:47 | each maximal whitespace run becomes its `RunRemainder`: nothing at either end of the text, the run itself without a line feed, otherwise one line feed or nothing |
| LineStrip.StripClean | lib/chupa-text/decomposers/html.rb:47 | no line of the result starts or ends with whitespace, and no line is empty |
| LineStrip.StripFixpoint | lib/chupa-text/decomposers/html.rb:47 | the text is unchanged exactly when it is already clean |
| LineStrip.StripIdempotent | lib/chupa-text/decomposers/html.rb:47 | stripping twice is stripping once |
| LineStrip.StripDeletesOnlyWhitespace | lib/chupa-text/decomposers/html.rb:47 | only whitespace is deleted, and the other characters keep their order |
| LineStrip.StripExampleSurrounded | lib/chupa-text/decomposers/html.rb:47 | `"\n  Hello\n"` becomes `"Hello"` |
| LineStrip.StripExampleIndented | lib/chupa-text/decomposers/html.rb:47 | `"Hello\n  World"` becomes `"Hello\nWorld"` |
| LineStrip.StripExampleBlankLine | lib/chupa-text/decomposers/html.rb:47 | `"a\n\nb"` becomes `"ab"`: the run's last line feed follows another, so the lines join |
| LineStrip.StripExampleSpacedBlankLine | lib/chupa-text/decomposers/html.rb:47 | `"a\n\n \nb"` becomes `"a\nb"`: a line of spaces before the last line feed keeps one line feed |
| Scenarios.ContentTypeDocument | lib/chupa-text/decomposers/html.rb:62-71 | a document whose first tag is a Content-Type tag gets the answer of that tag's `content` value, whatever follows |
| Scenarios.CharsetOfNamedContent | lib/chupa-text/decomposers/html.rb:66-69 | `text/html; charset=NAME` yields NAME normalized |
| Scenarios.NamedContentTypeDocument | lib/chupa-text/decomposers/html.rb:62-71 | such a document with `charset=NAME` gets NAME normalized |
| Scenarios.ContentTypeTest | test/test-html.rb:161-171 | the Content-Type test document gets `EUC-JP` |
| Scenarios.NormalizeTests | test/test-html.rb:224-247 | with `x-sjis`, `Shift-JIS` or `Shift_JIS` the document gets `Windows-31J` |
| Scenarios.ContentTypeWithoutCharset | lib/chupa-text/decomposers/html.rb:66-71 | a Content-Type tag without a charset gives nil, even when a `<meta charset>` tag follows |
| Scenarios.XmlDeclarationDocument | lib/chupa-text/decomposers/html.rb:60-61 | a document opening with `<?xml encoding="NAME"` gets NAME verbatim, whatever follows |
| Scenarios.XmlDeclarationTest | test/test-html.rb:149-159 | the XML declaration test gets `Shift_JIS`, not `Windows-31J` |
| Scenarios.CharsetDocument | lib/chupa-text/decomposers/html.rb:72-74 | a document whose only `<meta` is `<meta charset="NAME">` gets NAME normalized |
| Scenarios.MetaCharsetTest | test/test-html.rb:173-183 | the `<meta charset>` test document gets `EUC-JP` |
| Scenarios.TagFreeDocument | lib/chupa-text/decomposers/html.rb:75-76 | a text with neither an XML declaration nor a `<meta` tag is left to the guesser |
| Scenarios.NothingTest | test/test-html.rb:140-147 | the test document without tags is left to the guesser |

## Left out

- Nokogiri parsing is not modelled (`lib/chupa-text/decomposers/html.rb:40-45`): the parse itself, the `head/title` lookup, `doc.encoding`, the `body` lookup and `.text`. They belong to a foreign library. `BodyText` takes the body element's text, or its absence, as input.
- `NKF.guess(text).name` (`lib/chupa-text/decomposers/html.rb:91-93`) is a statistical guesser. It is the function parameter `EncodingGuess.Guesser`.
- Host plumbing is not modelled: `registry.register` (line 25), how `Data#extension` is derived from the URI, filling in the result's fields (`body`, `mime_type`, `uri`), and `yield` (lines 51-54).
- The tests for ISO-2022-JP, UTF-32 and KOI8-R documents (`test/test-html.rb:185-221`) are left out. Their outcome depends on NKF and Nokogiri, not on this code.
- Strings are sequences of characters. The byte encodings of the input and the regex engine's handling of them are not modelled.
- Case-insensitive matching folds ASCII letters only. Onigmo also folds a few non-ASCII characters, such as U+017F and U+212A, onto `s` and `k`. This affects the `i` patterns in `CharsetNormalizer`, `MetaTag`, `ContentTypeMeta` and `CharsetMeta`.
- ContentTypeMeta.FindCharsetParameter: `\b` treats only ASCII letters, digits and `_` as word characters. Ruby also treats non-ASCII letters in a UTF-8 string as word characters.
- The following behaviours are not in `html.rb`, and the model does not add them:
  - skipping script, navigation, header and footer elements;
  - refusing documents that carry a history of HTML MIME types;
  - recognising documents by a `<!DOCTYPE html`/`<html` prefix;
  - trusting an already-decoded encoding that is not ASCII-compatible;
  - stripping only the ends of the body text (the code strips every line).
