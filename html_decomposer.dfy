/**
 The decisions `ChupaText::Decomposers::HTML` makes itself: which data it
 handles (`target?`) and which body text it hands on (the `if
 body_element` branch of `decompose`). Parsing the HTML is Nokogiri's work
 and is not part of this model; the text of the body element, when there
 is one, is an input.
 */
module HtmlDecomposer {
  import opened Wrappers
  import opened LineStrip

  /** `TARGET_EXTENSIONS` */
  const TargetExtensions: seq<string> := ["htm", "html", "xhtml"]

  /** `TARGET_MIME_TYPES` */
  const TargetMimeTypes: seq<string> := ["text/html", "application/xhtml+xml"]

  /** What `target?` reads of a `ChupaText::Data`: its extension and MIME type, either possibly nil. */
  datatype Data = Data(extension: Option<string>, mimeType: Option<string>)

  /** `list.include?(value)`: string equality, so letter case matters, and nil is never included. */
  predicate Includes(list: seq<string>, value: Option<string>) {
    value.Some? && value.value in list
  }

  /** `target?(data)` */
  function IsTarget(data: Data): (r: bool)
    ensures r <==>
      || data.extension == Some("htm") || data.extension == Some("html") || data.extension == Some("xhtml")
      || data.mimeType == Some("text/html") || data.mimeType == Some("application/xhtml+xml")
  {
    Includes(TargetExtensions, data.extension) || Includes(TargetMimeTypes, data.mimeType)
  }

  /** Either field alone decides, whatever the other holds. */
  lemma TargetByEitherField(ext: Option<string>, mime: Option<string>, other: Option<string>)
    ensures IsTarget(Data(ext, mime)) <==> IsTarget(Data(ext, None)) || IsTarget(Data(None, mime))
    ensures IsTarget(Data(ext, None)) ==> IsTarget(Data(ext, other))
    ensures IsTarget(Data(None, mime)) ==> IsTarget(Data(other, mime))
    ensures !IsTarget(Data(None, None))
  {
  }

  /** The comparison is exact: other letter cases are not targets. */
  lemma TargetIsCaseSensitive()
    ensures !IsTarget(Data(Some("HTML"), None))
    ensures !IsTarget(Data(None, Some("TEXT/HTML")))
  {
    assert "HTML"[0] != "htm"[0] && "HTML"[0] != "html"[0] && "HTML"[0] != "xhtml"[0];
    assert "TEXT/HTML"[0] != "text/html"[0];
  }

  /** The extensions and MIME types of the decomposer's tests. */
  lemma TargetTests()
    ensures IsTarget(Data(Some("html"), None)) && IsTarget(Data(Some("htm"), None)) && IsTarget(Data(Some("xhtml"), None))
    ensures !IsTarget(Data(Some("txt"), None))
    ensures IsTarget(Data(None, Some("text/html"))) && IsTarget(Data(None, Some("application/xhtml+xml")))
    ensures !IsTarget(Data(None, Some("text/plain")))
  {
    assert "txt"[0] != "htm"[0] && "txt"[0] != "html"[0] && "txt"[0] != "xhtml"[0];
    assert "text/plain"[5] != "text/html"[5] && |"text/plain"| != |"application/xhtml+xml"|;
  }

  /**
   The body text of the decomposed data: the text of the body element with
   every line stripped, or empty when the document has no body element.
   */
  function BodyText(bodyElementText: Option<string>): (r: string)
    ensures Clean(r)
    ensures bodyElementText.None? ==> r == []
    ensures bodyElementText.Some? ==>
      Visible(r) == Visible(bodyElementText.value) && Subsequence(r, bodyElementText.value)
  {
    match bodyElementText
    case Some(text) =>
      StripClean(text);
      StripDeletesOnlyWhitespace(text);
      Strip(text)
    case None => ""
  }
}
