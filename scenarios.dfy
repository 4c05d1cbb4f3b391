/**
 The documents of the decomposer's encoding tests, and what
 `guess_encoding` answers for them. A document is the same head
 (`<html>`, `<head>`, indentation) followed by one tag and then anything
 at all, so each lemma covers every way the document can go on.
 */
module Scenarios {
  import opened Wrappers
  import opened Text
  import MetaTag
  import XmlDeclaration
  import ContentTypeMeta
  import CharsetMeta
  import CharsetNormalizer
  import EncodingGuess

  /** The lines in front of the tag in the test documents. */
  const Head: string := "<html>\n  <head>\n    "

  /** No quote character of either kind. */
  predicate QuoteFree(v: string) {
    forall k :: 0 <= k < |v| ==> !IsQuote(v[k])
  }

  /** The opening `<meta http-equiv="Content-Type" content="` of the tag. */
  const ContentTypeOpen: string := "<meta " + "http-equiv=" + "\"Content-Type\" " + "content=\""

  /** The `content` value `text/html; charset=NAME` of the test documents. */
  function NamedContent(name: string): string {
    "text/html; " + ("charset=" + name)
  }

  /** `<meta http-equiv="Content-Type" content="...">` */
  function ContentTypeTag(content: string): string {
    ContentTypeOpen + content + "\">"
  }

  /** A case-insensitive literal found in a piece of `s` is found in `s`. */
  lemma LowerPrefixInPiece(s: string, off: nat, t: string, i: nat, lit: string)
    requires off + |t| <= |s| && s[off..off + |t|] == t
    requires LowerPrefixAt(t, i, lit)
    ensures LowerPrefixAt(s, off + i, lit)
  {
    forall k | 0 <= k < |lit| ensures Lower(s[off + i + k]) == Lower(lit[k]) {
      assert s[off + i + k] == t[i + k];
    }
  }

  /** The head holds no `<meta` and does not open an XML declaration. */
  lemma HeadHasNoTag(s: string, p: nat)
    requires |s| >= 20 && s[..20] == Head
    ensures p < 20 ==> !MetaTag.OpensAt(s, p)
    ensures EncodingGuess.NoDeclaration(s)
  {
    assert forall k :: 0 <= k < 20 ==> s[k] == Head[k];
    assert s[1] == 'h';
    if p < 20 {
      assert s[p] != '<' || Lower(s[p + 1]) != 'm';
      assert Lower(s[p + 0]) != Lower("<meta"[0]) || Lower(s[p + 1]) != Lower("<meta"[1]);
    }
  }

  /** The first attribute of the Content-Type tag's opening. */
  lemma ContentTypeOpenStart()
    ensures LowerPrefixAt(ContentTypeOpen, 0, "<meta") && ContentTypeOpen[5] == ' '
    ensures LowerPrefixAt(ContentTypeOpen, 6, "http-equiv=") && ContentTypeOpen[17] == '"'
  {
    var t := ContentTypeOpen;
    assert forall k :: 0 <= k < 5 ==> t[k] == "<meta"[k];
    assert forall k :: 0 <= k < 11 ==> t[6 + k] == "http-equiv="[k];
  }

  /** The rest of the Content-Type tag's opening. */
  lemma ContentTypeOpenEnd()
    ensures |ContentTypeOpen| == 41
    ensures LowerPrefixAt(ContentTypeOpen, 18, "content-type") && ContentTypeOpen[30] == '"' && ContentTypeOpen[31] == ' '
    ensures LowerPrefixAt(ContentTypeOpen, 32, "content=") && ContentTypeOpen[40] == '"'
  {
    var t := ContentTypeOpen;
    assert |t| == 41;
    assert forall k :: 0 <= k < 12 ==> Lower(t[18 + k]) == "content-type"[k];
    assert forall k :: 0 <= k < 8 ==> t[32 + k] == "content="[k];
  }

  /** After its `<meta ` and `h`, the Content-Type tag's opening holds no `h` or `H`. */
  lemma ContentTypeOpenHasNoH()
    ensures forall k :: 6 < k < |ContentTypeOpen| ==> Lower(ContentTypeOpen[k]) != 'h'
  {
    assert |ContentTypeOpen| == 41;
  }

  /** Where the pieces of a test document with a Content-Type tag lie. */
  lemma ContentTypeDocumentPieces(content: string, rest: string)
    ensures var s := Head + ContentTypeTag(content) + rest; var n := |content|;
      && |s| == 63 + n + |rest|
      && s[..20] == Head
      && s[20..61] == ContentTypeOpen
      && s[61..61 + n] == content
      && s[61 + n] == '"' && s[62 + n] == '>'
  {
    var s := Head + ContentTypeTag(content) + rest;
    var n := |content|;
    assert |Head| == 20 && |ContentTypeOpen| == 41;
    assert s == Head + ContentTypeOpen + content + "\">" + rest;
    assert s[..20] == Head;
    assert s[20..61] == ContentTypeOpen;
    assert s[61..61 + n] == content;
  }

  /** The tag in a test document is a match of the Content-Type expression, capturing the content value. */
  lemma ContentTypeTagMatches(content: string, rest: string)
    requires QuoteFree(content) && |content| > 0
    ensures var s := Head + ContentTypeTag(content) + rest;
      ContentTypeMeta.MetaMatch(s, 20, 26, 52, 61 + |content|) && s[61..61 + |content|] == content
  {
    var t := ContentTypeOpen;
    var s := Head + ContentTypeTag(content) + rest;
    var n := |content|;
    ContentTypeDocumentPieces(content, rest);
    ContentTypeOpenStart();
    ContentTypeOpenEnd();
    assert forall k :: 0 <= k < n ==> s[61 + k] == content[k];
    assert s[25] == t[5] && s[37] == t[17] && s[50] == t[30] && s[51] == t[31] && s[60] == t[40];
    LowerPrefixInPiece(s, 20, t, 0, "<meta");
    LowerPrefixInPiece(s, 20, t, 6, "http-equiv=");
    LowerPrefixInPiece(s, 20, t, 18, "content-type");
    LowerPrefixInPiece(s, 20, t, 32, "content=");
    assert MetaTag.PrefixMatch(s, 20, 26);
  }

  /**
   No `http-equiv='content-type'` starts in `s[27..q + 2]` when nothing
   there before the quote at `q` is an `h` or a quote, and `>` follows it.
   */
  lemma NoHttpEquivBefore(s: string, q: nat, h: nat)
    requires 61 <= q && q + 1 < |s| && s[q] == '"' && s[q + 1] == '>'
    requires forall k :: 26 < k < 61 ==> Lower(s[k]) != 'h'
    requires forall k :: 61 <= k < q ==> !IsQuote(s[k])
    requires 26 < h <= q + 1
    ensures !(LowerPrefixAt(s, h, "http-equiv=") && h + 12 < |s| && IsQuote(s[h + 11]) && LowerPrefixAt(s, h + 12, "content-type"))
  {
    if h < 61 || h == q + 1 {
      assert Lower(s[h + 0]) != Lower("http-equiv="[0]);
    } else if h + 11 < q {
      assert !IsQuote(s[h + 11]);
    } else if h + 10 >= q {
      var k := q - h;
      assert Lower(s[h + k]) != Lower("http-equiv="[k]);
    } else {
      assert Lower(s[h + 12 + 0]) != Lower("content-type"[0]);
    }
  }

  /** The characters of a test document with a Content-Type tag, as `NoHttpEquivBefore` needs them. */
  lemma ContentTypeDocumentLayout(content: string, rest: string)
    requires QuoteFree(content)
    ensures var s := Head + ContentTypeTag(content) + rest; var q := 61 + |content|;
      && q + 1 < |s| && s[q] == '"' && s[q + 1] == '>'
      && (forall k :: 26 < k < 61 ==> Lower(s[k]) != 'h')
      && (forall k :: 61 <= k < q ==> !IsQuote(s[k]))
  {
    var t := ContentTypeOpen;
    var s := Head + ContentTypeTag(content) + rest;
    ContentTypeDocumentPieces(content, rest);
    ContentTypeOpenEnd();
    ContentTypeOpenHasNoH();
    assert forall k :: 20 <= k < 61 ==> s[k] == t[k - 20];
    assert forall k :: 0 <= k < |content| ==> s[61 + k] == content[k];
  }

  /** In a test document the tag after the head is the preferred Content-Type match. */
  lemma ContentTypeTagPreferred(content: string, rest: string, p: nat, h: nat, w: nat, e: nat)
    requires QuoteFree(content)
    requires ContentTypeMeta.MetaMatch(Head + ContentTypeTag(content) + rest, p, h, w, e)
    ensures 20 < p || (p == 20 && h <= 26)
  {
    var s := Head + ContentTypeTag(content) + rest;
    var n := |content|;
    ContentTypeDocumentPieces(content, rest);
    HeadHasNoTag(s, p);
    ContentTypeDocumentLayout(content, rest);
    if p == 20 && h > 26 {
      assert s[62 + n] == '>';
      NoHttpEquivBefore(s, 61 + n, h);
    }
  }

  /**
   A test document whose tag is a Content-Type meta tag gets the answer of
   that tag's content value, whatever follows it.
   */
  lemma ContentTypeDocument(content: string, rest: string, guess: EncodingGuess.Guesser)
    requires QuoteFree(content) && |content| > 0
    ensures EncodingGuess.GuessEncoding(Head + ContentTypeTag(content) + rest, guess) == ContentTypeMeta.CharsetOfContent(content)
  {
    var s := Head + ContentTypeTag(content) + rest;
    assert s == Head + (ContentTypeTag(content) + rest);
    HeadHasNoTag(s, 0);
    ContentTypeTagMatches(content, rest);
    forall p': nat, h': nat, w': nat, e': nat | ContentTypeMeta.MetaMatch(s, p', h', w', e')
      ensures 20 < p' || (20 == p' && h' <= 26)
    {
      ContentTypeTagPreferred(content, rest, p', h', w', e');
    }
    EncodingGuess.ContentTypeDecides(s, guess, 20, 26, 52, 61 + |content|);
  }

  /** An encoding name: one or more characters of `[a-zA-Z0-9_-]`. */
  predicate IsName(name: string) {
    |name| > 0 && forall k :: 0 <= k < |name| ==> IsNameChar(name[k])
  }

  /** The parameter part of `text/html; charset=NAME` is `charset=NAME`. */
  lemma ParametersOfNamedContent(name: string)
    ensures ContentTypeMeta.Parameters("text/html; " + ("charset=" + name)) == Some("charset=" + name)
  {
    var f := "charset=" + name;
    var c := "text/html; " + f;
    assert c[9] == ';';
    assert forall k :: 0 <= k < 9 ==> c[k] == "text/html; "[k];
    assert Find(c, 0, ';') == Some(9);
    RunEndUnique(c, 10, 11, IsSpace);
    assert c[11..] == f;
  }

  /** `\bcharset=([a-zA-Z0-9_-]+)` finds NAME in `charset=NAME`. */
  lemma CharsetParameterOfNamed(name: string)
    requires IsName(name)
    ensures ContentTypeMeta.CharsetParameter("charset=" + name) == Some(name)
  {
    var f := "charset=" + name;
    assert LowerPrefixAt(f, 0, "charset=") by {
      assert forall k :: 0 <= k < 8 ==> f[k] == "charset="[k];
    }
    assert f[8] == name[0];
    assert ContentTypeMeta.FindCharsetParameter(f, 0) == Some(0);
    assert forall k :: 8 <= k < |f| ==> f[k] == name[k - 8];
    RunEndUnique(f, 8, |f|, IsNameChar);
    assert f[0 + 8..RunEnd(f, 0 + 8, IsNameChar)] == name;
  }

  /** A `content` value `text/html; charset=NAME` yields NAME normalized. */
  lemma CharsetOfNamedContent(name: string)
    requires IsName(name)
    ensures ContentTypeMeta.CharsetOfContent(NamedContent(name)) == Some(CharsetNormalizer.NormalizeCharset(name))
  {
    ParametersOfNamedContent(name);
    CharsetParameterOfNamed(name);
  }

  /** `text/html; charset=NAME` holds no quote. */
  lemma NamedContentQuoteFree(name: string)
    requires IsName(name)
    ensures QuoteFree(NamedContent(name)) && |NamedContent(name)| > 0
  {
    var c := NamedContent(name);
    forall k | 0 <= k < |c| ensures !IsQuote(c[k]) {
      if k >= 19 {
        assert c[k] == name[k - 19];
      } else {
        assert c[k] == "text/html; charset="[k];
      }
    }
  }

  /** A test document whose Content-Type tag names the charset NAME gets NAME normalized. */
  lemma NamedContentTypeDocument(name: string, rest: string, guess: EncodingGuess.Guesser)
    requires IsName(name)
    ensures EncodingGuess.GuessEncoding(Head + ContentTypeTag(NamedContent(name)) + rest, guess)
      == Some(CharsetNormalizer.NormalizeCharset(name))
  {
    CharsetOfNamedContent(name);
    NamedContentQuoteFree(name);
    ContentTypeDocument(NamedContent(name), rest, guess);
  }

  /** A `content` value without a `;` has no charset parameter. */
  lemma NoParameterContent()
    ensures ContentTypeMeta.CharsetOfContent("text/html").None?
  {
    assert ContentTypeMeta.Parameters("text/html").None?;
  }

  /** The Content-Type test: `charset=EUC-JP` gives EUC-JP. */
  lemma ContentTypeTest(rest: string, guess: EncodingGuess.Guesser)
    ensures EncodingGuess.GuessEncoding(Head + ContentTypeTag(NamedContent("EUC-JP")) + rest, guess) == Some("EUC-JP")
  {
    assert IsName("EUC-JP");
    NamedContentTypeDocument("EUC-JP", rest, guess);
    CharsetNormalizer.NormalizeCharsetExamples();
  }

  /** The normalization tests: `x-sjis`, `Shift-JIS` and `Shift_JIS` all give Windows-31J. */
  lemma NormalizeTests(rest: string, guess: EncodingGuess.Guesser)
    ensures EncodingGuess.GuessEncoding(Head + ContentTypeTag(NamedContent("x-sjis")) + rest, guess) == Some("Windows-31J")
    ensures EncodingGuess.GuessEncoding(Head + ContentTypeTag(NamedContent("Shift-JIS")) + rest, guess) == Some("Windows-31J")
    ensures EncodingGuess.GuessEncoding(Head + ContentTypeTag(NamedContent("Shift_JIS")) + rest, guess) == Some("Windows-31J")
  {
    assert IsName("x-sjis") && IsName("Shift-JIS") && IsName("Shift_JIS");
    NamedContentTypeDocument("x-sjis", rest, guess);
    NamedContentTypeDocument("Shift-JIS", rest, guess);
    NamedContentTypeDocument("Shift_JIS", rest, guess);
    CharsetNormalizer.NormalizeCharsetExamples();
  }

  /**
   A Content-Type tag without a charset parameter decides too: the answer
   is nil, even when a `<meta charset>` tag or anything else follows.
   */
  lemma ContentTypeWithoutCharset(rest: string, guess: EncodingGuess.Guesser)
    ensures EncodingGuess.GuessEncoding(Head + ContentTypeTag("text/html") + rest, guess).None?
  {
    NoParameterContent();
    ContentTypeDocument("text/html", rest, guess);
  }

  /** `<?xml encoding="NAME"` at the very start of a document. */
  function XmlDeclarationOpening(name: string): string {
    "<?xml " + "encoding=\"" + name + "\""
  }

  /**
   A document opening with `<?xml encoding="NAME"` gets NAME verbatim, not
   normalized, whatever follows, meta tags included.
   */
  lemma XmlDeclarationDocument(name: string, rest: string, guess: EncodingGuess.Guesser)
    requires IsName(name)
    ensures EncodingGuess.GuessEncoding(XmlDeclarationOpening(name) + rest, guess) == Some(name)
  {
    var s := XmlDeclarationOpening(name) + rest;
    var n := |name|;
    assert |s| == 17 + n + |rest|;
    assert forall k :: 0 <= k < 16 ==> s[k] == ("<?xml " + "encoding=\"")[k];
    assert s[..5] == "<?xml";
    assert s[6..15] == "encoding=";
    assert forall k :: 0 <= k < n ==> s[16 + k] == name[k];
    assert s[16..16 + n] == name;
    assert s[16 + n] == '"';
    assert XmlDeclaration.DeclarationMatch(s, 6, name);
    EncodingGuess.DeclarationDecides(s, guess, 6, name);
  }

  /** The XML declaration test: `<?xml encoding="Shift_JIS"?>` gives Shift_JIS itself. */
  lemma XmlDeclarationTest(rest: string, guess: EncodingGuess.Guesser)
    ensures EncodingGuess.GuessEncoding(XmlDeclarationOpening("Shift_JIS") + rest, guess) == Some("Shift_JIS")
  {
    assert IsName("Shift_JIS");
    XmlDeclarationDocument("Shift_JIS", rest, guess);
  }

  /** The opening `<meta charset="` of the tag. */
  const CharsetOpen: string := "<meta " + "charset=\""

  /** `<meta charset="...">` */
  function CharsetTag(value: string): string {
    CharsetOpen + value + "\">"
  }

  /** The characters of the `<meta charset>` tag's opening. */
  lemma CharsetOpenFacts()
    ensures |CharsetOpen| == 15
    ensures LowerPrefixAt(CharsetOpen, 0, "<meta") && CharsetOpen[5] == ' '
    ensures LowerPrefixAt(CharsetOpen, 6, "charset=") && CharsetOpen[14] == '"'
    ensures forall k :: 0 < k < 15 ==> CharsetOpen[k] != '<' && CharsetOpen[k] != '>' && (Lower(CharsetOpen[k]) != 'c' || k == 6)
  {
    var t := CharsetOpen;
    assert |t| == 15;
    assert forall k :: 0 <= k < 5 ==> t[k] == "<meta"[k];
    assert forall k :: 0 <= k < 8 ==> t[6 + k] == "charset="[k];
  }

  /** Where the pieces of a test document with a `<meta charset>` tag lie. */
  lemma CharsetDocumentPieces(value: string, rest: string)
    ensures var s := Head + CharsetTag(value) + rest; var q := 35 + |value|;
      && |s| == q + 2 + |rest|
      && s[..20] == Head
      && s[20..35] == CharsetOpen
      && s[35..q] == value
      && s[q] == '"' && s[q + 1] == '>'
      && s[q + 2..] == rest
  {
    var s := Head + CharsetTag(value) + rest;
    var q := 35 + |value|;
    assert |Head| == 20 && |CharsetOpen| == 15;
    assert s == Head + CharsetOpen + value + "\">" + rest;
    assert s[..20] == Head;
    assert s[20..35] == CharsetOpen;
    assert s[35..q] == value;
    assert s[q + 2..] == rest;
  }

  /** The lines after the tag in the test documents. */
  const Tail: string := "\n  </head>\n  <body>Hello</body>\n</html>\n"

  /** No `<meta` followed by whitespace starts anywhere in `t`. */
  ghost predicate NoMetaOpening(t: string) {
    forall p: nat :: !MetaTag.OpensAt(t, p)
  }

  /** Whether `<meta\s` starts at `p` depends only on the text from `p` on. */
  lemma OpensAtSuffix(s: string, off: nat, p: nat)
    requires off <= p && off <= |s|
    ensures MetaTag.OpensAt(s, p) == MetaTag.OpensAt(s[off..], p - off)
  {
    var t := s[off..];
    if p + 6 <= |s| {
      assert s[p..p + 6] == t[p - off..p - off + 6];
    }
  }

  /** The closing lines of the test documents hold no `<meta`. */
  lemma TailHasNoMetaOpening()
    ensures NoMetaOpening(Tail)
  {
    var t := Tail;
    assert |t| == 40;
    forall p: nat ensures !MetaTag.OpensAt(t, p) {
      if p + 6 <= |t| {
        assert t[p] != '<' || Lower(t[p + 1]) != 'm';
        assert Lower(t[p + 0]) != Lower("<meta"[0]) || Lower(t[p + 1]) != Lower("<meta"[1]);
      }
    }
  }

  /** The characters of a test document with a `<meta charset>` tag. */
  lemma CharsetDocumentLayout(value: string, rest: string)
    requires IsName(value)
    ensures var s := Head + CharsetTag(value) + rest; var q := 35 + |value|;
      && q + 1 < |s| && s[q] == '"' && s[q + 1] == '>'
      && s[..20] == Head && s[q + 2..] == rest
      && LowerPrefixAt(s, 20, "<meta") && s[25] == ' '
      && LowerPrefixAt(s, 26, "charset=") && s[34] == '"'
      && (forall k :: 20 < k < 35 ==> s[k] != '<' && s[k] != '>' && (Lower(s[k]) != 'c' || k == 26))
      && (forall k :: 35 <= k < q ==> IsNameChar(s[k]))
      && s[35..q] == value
  {
    var s := Head + CharsetTag(value) + rest;
    var t := CharsetOpen;
    CharsetDocumentPieces(value, rest);
    CharsetOpenFacts();
    assert forall k :: 20 <= k < 35 ==> s[k] == t[k - 20];
    assert forall k :: 0 <= k < |value| ==> s[35 + k] == value[k];
    LowerPrefixInPiece(s, 20, t, 0, "<meta");
    LowerPrefixInPiece(s, 20, t, 6, "charset=");
  }

  /** In that layout no `http-equiv=` starts after `<meta `. */
  lemma NoHttpEquivInCharsetTag(s: string, q: nat, h: nat)
    requires 35 <= q && q + 1 < |s| && s[q] == '"' && s[q + 1] == '>'
    requires forall k :: 35 <= k < q ==> IsNameChar(s[k])
    requires 26 <= h <= q + 1
    ensures !LowerPrefixAt(s, h, "http-equiv=")
  {
    if h == q + 1 {
      assert Lower(s[h + 0]) != Lower("http-equiv="[0]);
    } else if h + 10 >= q {
      var k := q - h;
      assert Lower(s[h + k]) != Lower("http-equiv="[k]);
    } else {
      assert IsNameChar(s[h + 10]);
      assert Lower(s[h + 10]) != Lower("http-equiv="[10]);
    }
  }

  /** In that layout no second `charset=` followed by a quote starts after `<meta charset=`. */
  lemma NoOtherCharsetAttribute(s: string, q: nat, h: nat)
    requires 35 <= q && q + 1 < |s| && s[q] == '"' && s[q + 1] == '>'
    requires forall k :: 20 < k < 35 ==> s[k] != '<' && s[k] != '>' && (Lower(s[k]) != 'c' || k == 26)
    requires forall k :: 35 <= k < q ==> IsNameChar(s[k])
    requires 26 < h <= q + 1
    ensures !(LowerPrefixAt(s, h, "charset=") && h + 8 < |s| && IsQuote(s[h + 8]))
  {
    if h < 35 || h == q + 1 {
      assert Lower(s[h + 0]) != Lower("charset="[0]);
    } else if h + 8 > q {
      var k := q - h;
      assert Lower(s[h + k]) != Lower("charset="[k]);
    } else if h + 8 == q {
      assert Lower(s[h + 7]) != Lower("charset="[7]);
    } else {
      assert IsNameChar(s[h + 8]);
    }
  }

  /** In a test document with a `<meta charset>` tag, `<meta\s` starts only at the tag. */
  lemma CharsetDocumentOpensOnce(value: string, rest: string, p: nat)
    requires IsName(value) && NoMetaOpening(rest)
    ensures MetaTag.OpensAt(Head + CharsetTag(value) + rest, p) ==> p == 20
  {
    var s := Head + CharsetTag(value) + rest;
    var q := 35 + |value|;
    CharsetDocumentLayout(value, rest);
    HeadHasNoTag(s, p);
    if q + 2 <= p {
      OpensAtSuffix(s, q + 2, p);
    } else if 20 < p {
      if 35 <= p < q {
        assert IsNameChar(s[p]);
      }
      assert s[p] != '<';
      assert Lower(s[p + 0]) != Lower("<meta"[0]);
    }
  }

  /**
   A test document whose tag is `<meta charset="NAME">`, with no other
   `<meta` after it, gets NAME normalized.
   */
  lemma CharsetDocument(value: string, rest: string, guess: EncodingGuess.Guesser)
    requires IsName(value) && NoMetaOpening(rest)
    ensures EncodingGuess.GuessEncoding(Head + CharsetTag(value) + rest, guess)
      == Some(CharsetNormalizer.NormalizeCharset(value))
  {
    var s := Head + CharsetTag(value) + rest;
    var q := 35 + |value|;
    CharsetDocumentLayout(value, rest);
    HeadHasNoTag(s, 0);
    forall p: nat, h: nat, w: nat, e: nat | ContentTypeMeta.MetaMatch(s, p, h, w, e) ensures false {
      CharsetDocumentOpensOnce(value, rest, p);
      NoHttpEquivInCharsetTag(s, q, h);
    }
    assert CharsetMeta.MetaMatch(s, 20, 26, q);
    forall p: nat, h: nat, e: nat | CharsetMeta.MetaMatch(s, p, h, e) ensures 20 < p || (20 == p && h <= 26) {
      CharsetDocumentOpensOnce(value, rest, p);
      if h > 26 {
        NoOtherCharsetAttribute(s, q, h);
      }
    }
    EncodingGuess.CharsetTagDecides(s, guess, 20, 26, q);
  }

  /** The `<meta charset>` test: `<meta charset="EUC-JP">` gives EUC-JP. */
  lemma MetaCharsetTest(guess: EncodingGuess.Guesser)
    ensures EncodingGuess.GuessEncoding(Head + CharsetTag("EUC-JP") + Tail, guess) == Some("EUC-JP")
  {
    assert IsName("EUC-JP");
    TailHasNoMetaOpening();
    CharsetDocument("EUC-JP", Tail, guess);
    CharsetNormalizer.NormalizeCharsetExamples();
  }

  /** A text that neither opens with `<?xml` nor holds a `<meta` tag is left to the guesser. */
  lemma TagFreeDocument(text: string, guess: EncodingGuess.Guesser)
    requires !(|text| >= 5 && text[..5] == "<?xml") && NoMetaOpening(text)
    ensures EncodingGuess.GuessEncoding(text, guess) == Some(guess(text))
  {
    EncodingGuess.GuesserDecidesLast(text, guess, guess);
  }

  /** The test without any declaration: the guesser decides. */
  lemma NothingTest(guess: EncodingGuess.Guesser)
    ensures EncodingGuess.GuessEncoding("<html>\n  <body>Hello</body>\n</html>\n", guess)
      == Some(guess("<html>\n  <body>Hello</body>\n</html>\n"))
  {
    var t := "<html>\n  <body>Hello</body>\n</html>\n";
    assert |t| == 36;
    forall p: nat ensures !MetaTag.OpensAt(t, p) {
      if p + 6 <= |t| {
        assert t[p] != '<' || Lower(t[p + 1]) != 'm';
        assert Lower(t[p + 0]) != Lower("<meta"[0]) || Lower(t[p + 1]) != Lower("<meta"[1]);
      }
    }
    assert t[1] == 'h';
    TagFreeDocument(t, guess);
  }
}
