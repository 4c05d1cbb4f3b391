/**
 `guess_encoding`: the encoding handed to the HTML parser. Its `case`
 tries the XML declaration, then the Content-Type meta tag, then the
 `<meta charset>` tag, and the first of them that matches decides; only
 when none matches is the statistical guesser (`NKF.guess(text).name`)
 asked.
 */
module EncodingGuess {
  import opened Wrappers
  import XmlDeclaration
  import ContentTypeMeta
  import CharsetMeta
  import CharsetNormalizer

  /** NKF's guess of a text's encoding, by name; an opaque collaborator. */
  type Guesser = string -> string

  /** The rule that decides the answer for a text. */
  datatype Rule = XmlDeclarationRule | ContentTypeRule | CharsetRule | GuesserRule

  /** Which branch of the `case` a text takes: the first whose expression matches. */
  function DecidingRule(text: string): Rule {
    if XmlDeclaration.DeclaredEncoding(text).Some? then XmlDeclarationRule
    else if ContentTypeMeta.Content(text).Some? then ContentTypeRule
    else if CharsetMeta.Value(text).Some? then CharsetRule
    else GuesserRule
  }

  /** `guess_encoding(text)`; nil only when a Content-Type tag matched without a charset. */
  function GuessEncoding(text: string, guess: Guesser): Option<string> {
    match XmlDeclaration.DeclaredEncoding(text)
    case Some(name) => Some(name)
    case None =>
      match ContentTypeMeta.Content(text)
      case Some(content) => ContentTypeMeta.CharsetOfContent(content)
      case None =>
        match CharsetMeta.Value(text)
        case Some(charset) => Some(CharsetNormalizer.NormalizeCharset(charset))
        case None => Some(guess(text))
  }

  /** No XML declaration matches anywhere in the text. */
  ghost predicate NoDeclaration(text: string) {
    forall i: nat, n: string :: !XmlDeclaration.DeclarationMatch(text, i, n)
  }

  /** No Content-Type meta tag matches anywhere in the text. */
  ghost predicate NoContentTypeTag(text: string) {
    forall p: nat, h: nat, w: nat, e: nat :: !ContentTypeMeta.MetaMatch(text, p, h, w, e)
  }

  /** No `<meta charset>` tag matches anywhere in the text. */
  ghost predicate NoCharsetTag(text: string) {
    forall p: nat, h: nat, e: nat :: !CharsetMeta.MetaMatch(text, p, h, e)
  }

  /** Each rule decides exactly when its expression matches and no earlier one does. */
  lemma DecidingRuleMatches(text: string)
    ensures DecidingRule(text) == XmlDeclarationRule <==> !NoDeclaration(text)
    ensures DecidingRule(text) == ContentTypeRule <==> NoDeclaration(text) && !NoContentTypeTag(text)
    ensures DecidingRule(text) == CharsetRule <==> NoDeclaration(text) && NoContentTypeTag(text) && !NoCharsetTag(text)
    ensures DecidingRule(text) == GuesserRule <==> NoDeclaration(text) && NoContentTypeTag(text) && NoCharsetTag(text)
  {
    XmlDeclaration.DeclaredEncodingNone(text);
    ContentTypeMeta.ContentNone(text);
    CharsetMeta.ValueNone(text);
  }

  /**
   An XML declaration decides: the name captured at its first match is
   returned verbatim, whatever meta tags follow.
   */
  lemma DeclarationDecides(text: string, guess: Guesser, i: nat, name: string)
    requires XmlDeclaration.DeclarationMatch(text, i, name)
    requires forall j: nat, n :: j < i ==> !XmlDeclaration.DeclarationMatch(text, j, n)
    ensures GuessEncoding(text, guess) == Some(name)
  {
    XmlDeclaration.DeclaredEncodingIsFirstMatch(text, i, name);
  }

  /**
   Without an XML declaration, a Content-Type meta tag decides: the charset
   parameter of the `content` value captured by its preferred match,
   normalized, or nil when that value carries none; the `<meta charset>`
   rule and the guesser are not consulted.
   */
  lemma ContentTypeDecides(text: string, guess: Guesser, p: nat, h: nat, w: nat, e: nat)
    requires NoDeclaration(text)
    requires ContentTypeMeta.MetaMatch(text, p, h, w, e)
    requires forall p': nat, h': nat, w': nat, e': nat ::
      ContentTypeMeta.MetaMatch(text, p', h', w', e') ==> p < p' || (p == p' && h' <= h)
    ensures GuessEncoding(text, guess) == ContentTypeMeta.CharsetOfContent(text[w + 9..e])
  {
    XmlDeclaration.DeclaredEncodingNone(text);
    ContentTypeMeta.ContentOfPreferred(text, p, h, w, e);
  }

  /**
   With neither an XML declaration nor a Content-Type meta tag, a
   `<meta charset>` tag decides: its preferred match's quoted value,
   normalized.
   */
  lemma CharsetTagDecides(text: string, guess: Guesser, p: nat, h: nat, e: nat)
    requires NoDeclaration(text) && NoContentTypeTag(text)
    requires CharsetMeta.MetaMatch(text, p, h, e)
    requires forall p': nat, h': nat, e': nat ::
      CharsetMeta.MetaMatch(text, p', h', e') ==> p < p' || (p == p' && h' <= h)
    ensures GuessEncoding(text, guess) == Some(CharsetNormalizer.NormalizeCharset(text[h + 9..e]))
  {
    XmlDeclaration.DeclaredEncodingNone(text);
    ContentTypeMeta.ContentNone(text);
    CharsetMeta.ValueOfPreferred(text, p, h, e);
  }

  /** The guesser is consulted exactly when none of the three expressions matches, and then it decides. */
  lemma GuesserDecidesLast(text: string, guess: Guesser, other: Guesser)
    ensures NoDeclaration(text) && NoContentTypeTag(text) && NoCharsetTag(text) ==>
      GuessEncoding(text, guess) == Some(guess(text))
    ensures !(NoDeclaration(text) && NoContentTypeTag(text) && NoCharsetTag(text)) ==>
      GuessEncoding(text, guess) == GuessEncoding(text, other)
  {
    DecidingRuleMatches(text);
  }

  /** The answer is nil exactly when a Content-Type tag decides and its `content` value has no charset parameter. */
  lemma GuessEncodingNil(text: string, guess: Guesser)
    ensures GuessEncoding(text, guess).None? <==>
      DecidingRule(text) == ContentTypeRule
      && ContentTypeMeta.CharsetOfContent(ContentTypeMeta.Content(text).value).None?
  {
  }

  /** Whatever the meta tag rules return has already been normalized. */
  lemma MetaAnswersNormalized(text: string, guess: Guesser)
    requires DecidingRule(text) == ContentTypeRule || DecidingRule(text) == CharsetRule
    requires GuessEncoding(text, guess).Some?
    ensures CharsetNormalizer.NormalizeCharset(GuessEncoding(text, guess).value) == GuessEncoding(text, guess).value
  {
    if DecidingRule(text) == ContentTypeRule {
      ContentTypeMeta.CharsetOfContentNormalized(ContentTypeMeta.Content(text).value);
    } else {
      CharsetNormalizer.NormalizeCharsetIdempotent(CharsetMeta.Value(text).value);
    }
  }
}
