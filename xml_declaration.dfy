/**
 The first rule of `guess_encoding`:
 `/\A<\?xml.+?encoding=(['"])([a-zA-Z0-9_-]+)\1/`, no flags, so the match
 is case-sensitive and `.` stops at a line feed. The captured name is
 returned verbatim.
 */
module XmlDeclaration {
  import opened Wrappers
  import opened Text

  /** `encoding=(['"])([a-zA-Z0-9_-]+)\1` matched at `i`, capturing `name`. */
  ghost predicate EncodingAttributeMatch(s: string, i: nat, name: string) {
    && |name| > 0
    && i + 11 + |name| <= |s|
    && s[i..i + 9] == "encoding="
    && IsQuote(s[i + 9])
    && (forall k :: 0 <= k < |name| ==> IsNameChar(name[k]))
    && s[i + 10..i + 10 + |name|] == name
    && s[i + 10 + |name|] == s[i + 9]
  }

  /**
   The whole expression matched with `.+?` covering `s[5..i]`: the text
   opens with `<?xml`, at least one character other than a line feed
   follows, and the `encoding=` attribute starts at `i`.
   */
  ghost predicate DeclarationMatch(s: string, i: nat, name: string) {
    && |s| >= 5 && s[..5] == "<?xml"
    && 6 <= i <= |s|
    && NoLineFeed(s, 5, i)
    && EncodingAttributeMatch(s, i, name)
  }

  /** Tries `encoding=(['"])([a-zA-Z0-9_-]+)\1` at `i`; the greedy name stops at the closing quote. */
  function EncodingAttribute(s: string, i: nat): (r: Option<string>)
    ensures r.Some? ==> EncodingAttributeMatch(s, i, r.value)
  {
    if i + 10 <= |s| && s[i..i + 9] == "encoding=" && IsQuote(s[i + 9]) then
      var e := RunEnd(s, i + 10, IsNameChar);
      if i + 10 < e < |s| && s[e] == s[i + 9] then Some(s[i + 10..e]) else None
    else None
  }

  /** Backtracking cannot find another name at the same position: quotes are not name characters. */
  lemma EncodingAttributeComplete(s: string, i: nat, name: string)
    requires EncodingAttributeMatch(s, i, name)
    ensures EncodingAttribute(s, i) == Some(name)
  {
    var j := i + 10 + |name|;
    forall k | i + 10 <= k < j ensures IsNameChar(s[k]) {
      assert s[k] == s[i + 10..j][k - i - 10];
    }
    RunEndUnique(s, i + 10, j, IsNameChar);
  }

  /** No line feed in `s[a..b]`: the characters `.` may cover. */
  ghost predicate NoLineFeed(s: string, a: nat, b: nat)
    requires a <= b <= |s|
  {
    forall k :: a <= k < b ==> s[k] != '\n'
  }

  /**
   The lazy `.+?`: the first end `j >= i` of the `.+?` run at which the
   rest of the expression matches. The run may not cross a line feed, so
   the scan stops at the first one.
   */
  function LazyScan(s: string, i: nat): (r: Option<nat>)
    requires 6 <= i <= |s|
    requires NoLineFeed(s, 5, i - 1)
    ensures r.Some? ==> i <= r.value <= |s| && NoLineFeed(s, 5, r.value) && EncodingAttribute(s, r.value).Some?
    ensures r.Some? ==> forall j :: i <= j < r.value ==> EncodingAttribute(s, j).None?
    ensures r.None? ==> forall j :: i <= j <= |s| && NoLineFeed(s, 5, j) ==> EncodingAttribute(s, j).None?
    decreases |s| - i
  {
    if s[i - 1] == '\n' then None
    else if EncodingAttribute(s, i).Some? then Some(i)
    else if i == |s| then None
    else LazyScan(s, i + 1)
  }

  /** The encoding name the XML declaration rule yields, if the expression matches. */
  function DeclaredEncoding(s: string): (r: Option<string>)
    ensures r.Some? ==> exists i: nat :: DeclarationMatch(s, i, r.value)
  {
    if |s| >= 6 && s[..5] == "<?xml" then
      match LazyScan(s, 6)
      case Some(i) => assert DeclarationMatch(s, i, EncodingAttribute(s, i).value); EncodingAttribute(s, i)
      case None => None
    else None
  }

  /** The rule yields a name exactly when the expression matches somewhere. */
  lemma {:induction false} DeclaredEncodingNone(s: string)
    ensures DeclaredEncoding(s).None? <==> forall i, n :: !DeclarationMatch(s, i, n)
  {
    if |s| >= 6 && s[..5] == "<?xml" {
      match LazyScan(s, 6)
      case Some(i) =>
        assert DeclarationMatch(s, i, EncodingAttribute(s, i).value);
      case None =>
        forall i, n | DeclarationMatch(s, i, n) ensures false {
          EncodingAttributeComplete(s, i, n);
        }
    }
  }

  /** The name returned is the one captured where the shortest `.+?` that lets the expression match ends. */
  lemma {:induction false} DeclaredEncodingIsFirstMatch(s: string, i: nat, name: string)
    requires DeclarationMatch(s, i, name)
    requires forall j: nat, n :: j < i ==> !DeclarationMatch(s, j, n)
    ensures DeclaredEncoding(s) == Some(name)
  {
    EncodingAttributeComplete(s, i, name);
    match LazyScan(s, 6)
    case Some(j) =>
      assert DeclarationMatch(s, j, EncodingAttribute(s, j).value);
    case None =>
  }
}
