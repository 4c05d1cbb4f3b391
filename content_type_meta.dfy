/**
 The second rule of `guess_encoding`:
 `<meta\s[^>]*http-equiv=(['"])content-type\1\s+content=(['"])(.+?)\2`
 with the flags `i` (letter case ignored), `m` (`.` also matches a line
 feed) and `x` (the line breaks inside the pattern are not part of it). The
 captured `content` value is split once at `;\s*`, and the `charset`
 parameter found by `\bcharset=([a-zA-Z0-9_-]+)` in the rest, if any, is
 normalized. When the tag matches but carries no such parameter the rule
 yields nil and no later rule is tried.
 */
module ContentTypeMeta {
  import opened Wrappers
  import opened Text
  import MetaTag
  import CharsetNormalizer

  /**
   The tail matched at `h`: its `\s+` covers `s[h + 25..w]` and the lazy
   `(.+?)` stops at the first suitable closing quote, at `e`; the capture is
   `s[w + 9..e]`.
   */
  ghost predicate TailMatch(s: string, h: nat, w: nat, e: nat) {
    && h + 25 < w
    && w + 10 <= e < |s|
    && LowerPrefixAt(s, h, "http-equiv=")
    && IsQuote(s[h + 11])
    && LowerPrefixAt(s, h + 12, "content-type")
    && s[h + 24] == s[h + 11]
    && AllIn(s, h + 25, w, IsSpace)
    && LowerPrefixAt(s, w, "content=")
    && IsQuote(s[w + 8])
    && s[e] == s[w + 8]
    && forall k :: w + 10 <= k < e ==> s[k] != s[w + 8]
  }

  /** The tail tried at `h`, yielding the `content` value it captures. */
  function Tail(s: string, h: nat): (r: Option<string>)
  {
    if h + 25 <= |s| && LowerPrefixAt(s, h, "http-equiv=") && IsQuote(s[h + 11])
      && LowerPrefixAt(s, h + 12, "content-type") && s[h + 24] == s[h + 11]
    then
      var w := RunEnd(s, h + 25, IsSpace);
      if h + 25 < w && w + 10 <= |s| && LowerPrefixAt(s, w, "content=") && IsQuote(s[w + 8]) then
        match Find(s, w + 10, s[w + 8])
        case Some(e) => Some(s[w + 9..e])
        case None => None
      else None
    else None
  }

  /** Whatever `Tail` yields comes from a tail match. */
  lemma TailSound(s: string, h: nat)
    requires Tail(s, h).Some?
    ensures exists w: nat, e: nat :: TailMatch(s, h, w, e) && Tail(s, h).value == s[w + 9..e]
  {
    var w := RunEnd(s, h + 25, IsSpace);
    var e := Find(s, w + 10, s[w + 8]).value;
    assert TailMatch(s, h, w, e);
  }

  /** A tail match is the one `Tail` finds: the `\s+` run and the lazy capture are both forced. */
  lemma TailComplete(s: string, h: nat, w: nat, e: nat)
    requires TailMatch(s, h, w, e)
    ensures Tail(s, h) == Some(s[w + 9..e])
  {
    assert Lower(s[w + 0]) == Lower("content="[0]);
    RunEndUnique(s, h + 25, w, IsSpace);
  }

  /** The whole expression matched from `p`, with `[^>]*` ending at `h`. */
  ghost predicate MetaMatch(s: string, p: nat, h: nat, w: nat, e: nat) {
    MetaTag.PrefixMatch(s, p, h) && TailMatch(s, h, w, e)
  }

  /** The `content` value `$3` of the preferred match. */
  function Content(s: string): Option<string> {
    MetaTag.Capture(s, Tail)
  }

  /** A match of the whole expression is a match of the engine with this tail. */
  lemma MetaMatchIsEngineMatch(s: string, p: nat, h: nat, w: nat, e: nat)
    requires MetaMatch(s, p, h, w, e)
    ensures MetaTag.Match(s, Tail, p, h)
  {
    TailComplete(s, h, w, e);
  }

  /** A match of the engine with this tail is a match of the whole expression. */
  lemma EngineMatchIsMetaMatch(s: string, p: nat, h: nat)
    requires MetaTag.Match(s, Tail, p, h)
    ensures exists w: nat, e: nat :: MetaMatch(s, p, h, w, e)
  {
    TailSound(s, h);
    var w: nat, e: nat :| TailMatch(s, h, w, e);
    assert MetaMatch(s, p, h, w, e);
  }

  /** The expression matches somewhere exactly when `Content` yields a value. */
  lemma ContentNone(s: string)
    ensures Content(s).None? <==> forall p: nat, h: nat, w: nat, e: nat :: !MetaMatch(s, p, h, w, e)
  {
    MetaTag.CaptureNone(s, Tail);
    if Content(s).None? {
      forall p: nat, h: nat, w: nat, e: nat | MetaMatch(s, p, h, w, e) ensures false {
        MetaMatchIsEngineMatch(s, p, h, w, e);
      }
    } else {
      var p: nat, h: nat :| MetaTag.Match(s, Tail, p, h);
      EngineMatchIsMetaMatch(s, p, h);
    }
  }

  /**
   `Content` is the capture of the preferred match: the leftmost `<meta`,
   and at it the longest `[^>]*` after which the tail matches.
   */
  lemma ContentOfPreferred(s: string, p: nat, h: nat, w: nat, e: nat)
    requires MetaMatch(s, p, h, w, e)
    requires forall p': nat, h': nat, w': nat, e': nat :: MetaMatch(s, p', h', w', e') ==> p < p' || (p == p' && h' <= h)
    ensures Content(s) == Some(s[w + 9..e])
  {
    TailComplete(s, h, w, e);
    forall p': nat, h': nat | MetaTag.Match(s, Tail, p', h') ensures p < p' || (p == p' && h' <= h) {
      EngineMatchIsMetaMatch(s, p', h');
      var w': nat, e': nat :| MetaMatch(s, p', h', w', e');
    }
    MetaTag.CaptureOfPreferred(s, Tail, p, h);
  }

  /**
   The second part of `content_type` split at most once at `;\s*`: nil
   without a `;`; otherwise what follows the first `;` and the whitespace
   right after it.
   */
  function Parameters(c: string): (r: Option<string>)
    ensures r.None? <==> forall k :: 0 <= k < |c| ==> c[k] != ';'
    ensures r.Some? ==> |r.value| < |c| && r.value == c[|c| - |r.value|..]
    ensures r.Some? ==> |r.value| > 0 ==> !IsSpace(r.value[0])
    ensures r.Some? ==> exists k ::
      && 0 <= k < |c| - |r.value| && c[k] == ';'
      && (forall j :: 0 <= j < k ==> c[j] != ';')
      && (forall j :: k < j < |c| - |r.value| ==> IsSpace(c[j]))
  {
    match Find(c, 0, ';')
    case None => None
    case Some(k) =>
      var t := c[RunEnd(c, k + 1, IsSpace)..];
      assert c[|c| - |t|..] == t;
      Some(t)
  }

  /** `\bcharset=([a-zA-Z0-9_-]+)` (flag `i`) matched at `p` in `t`, the greedy name ending at `e`. */
  ghost predicate CharsetParameterMatch(t: string, p: nat, e: nat) {
    && p + 8 < e <= |t|
    && (p == 0 || !IsWordChar(t[p - 1]))
    && LowerPrefixAt(t, p, "charset=")
    && AllIn(t, p + 8, e, IsNameChar)
    && (e == |t| || !IsNameChar(t[e]))
  }

  /** The leftmost position at or after `p` where `\bcharset=` is followed by a name character. */
  function FindCharsetParameter(t: string, p: nat): (r: Option<nat>)
    requires p <= |t|
    ensures r.Some? ==> p <= r.value && r.value + 9 <= |t|
    ensures r.Some? ==> CharsetParameterMatch(t, r.value, RunEnd(t, r.value + 8, IsNameChar))
    ensures r.Some? ==> forall q: nat, e: nat :: p <= q < r.value ==> !CharsetParameterMatch(t, q, e)
    ensures r.None? ==> forall q: nat, e: nat :: p <= q ==> !CharsetParameterMatch(t, q, e)
    decreases |t| - p
  {
    if p == |t| then None
    else if (p == 0 || !IsWordChar(t[p - 1])) && p + 9 <= |t| && LowerPrefixAt(t, p, "charset=") && IsNameChar(t[p + 8]) then
      Some(p)
    else FindCharsetParameter(t, p + 1)
  }

  /** `$1` of `\bcharset=([a-zA-Z0-9_-]+)`: the name at the leftmost match. */
  function CharsetParameter(t: string): (r: Option<string>)
  {
    match FindCharsetParameter(t, 0)
    case Some(p) => Some(t[p + 8..RunEnd(t, p + 8, IsNameChar)])
    case None => None
  }

  /** The name `CharsetParameter` yields is the one at the leftmost match; none exactly when nothing matches. */
  lemma CharsetParameterIsLeftmost(t: string, p: nat, e: nat)
    ensures CharsetParameterMatch(t, p, e) && (forall q: nat, e': nat :: q < p ==> !CharsetParameterMatch(t, q, e'))
      ==> CharsetParameter(t) == Some(t[p + 8..e])
    ensures CharsetParameter(t).None? <==> forall q: nat, e': nat :: !CharsetParameterMatch(t, q, e')
  {
    if CharsetParameterMatch(t, p, e) {
      RunEndUnique(t, p + 8, e, IsNameChar);
    }
  }

  /**
   The rule's answer for a matched `content` value: the normalized charset
   parameter, or nil when there is no parameter part or no charset in it.
   */
  function CharsetOfContent(c: string): (r: Option<string>)
  {
    match Parameters(c)
    case None => None
    case Some(t) =>
      match CharsetParameter(t)
      case Some(n) => Some(CharsetNormalizer.NormalizeCharset(n))
      case None => None
  }

  /** The answer is nil exactly when there is no `;` or no `charset=` parameter after it. */
  lemma CharsetOfContentNone(c: string)
    ensures CharsetOfContent(c).None? <==>
      Parameters(c).None? || forall q: nat, e: nat :: !CharsetParameterMatch(Parameters(c).value, q, e)
  {
    if Parameters(c).Some? {
      CharsetParameterIsLeftmost(Parameters(c).value, 0, 0);
    }
  }

  /** A value the rule yields is already normalized. */
  lemma CharsetOfContentNormalized(c: string)
    requires CharsetOfContent(c).Some?
    ensures CharsetNormalizer.NormalizeCharset(CharsetOfContent(c).value) == CharsetOfContent(c).value
  {
    CharsetNormalizer.NormalizeCharsetIdempotent(CharsetParameter(Parameters(c).value).value);
  }
}
