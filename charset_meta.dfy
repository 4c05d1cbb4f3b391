/**
 The third rule of `guess_encoding`:
 `<meta\s[^>]*charset=(['"])(.+?)\1` with the flags `i`, `m` and `x`. The
 captured value, whatever characters it holds, is normalized.
 */
module CharsetMeta {
  import opened Wrappers
  import opened Text
  import MetaTag

  /**
   The tail `charset=(['"])(.+?)\1` matched at `h`, the lazy `(.+?)` stopping
   at the first closing quote after at least one character, at `e`; the
   capture is `s[h + 9..e]`.
   */
  ghost predicate TailMatch(s: string, h: nat, e: nat) {
    && h + 10 <= e < |s|
    && LowerPrefixAt(s, h, "charset=")
    && IsQuote(s[h + 8])
    && s[e] == s[h + 8]
    && forall k :: h + 10 <= k < e ==> s[k] != s[h + 8]
  }

  /** The tail tried at `h`, yielding the quoted value it captures. */
  function Tail(s: string, h: nat): (r: Option<string>)
  {
    if h + 10 <= |s| && LowerPrefixAt(s, h, "charset=") && IsQuote(s[h + 8]) then
      match Find(s, h + 10, s[h + 8])
      case Some(e) => Some(s[h + 9..e])
      case None => None
    else None
  }

  /** `Tail` yields a value exactly at a tail match, and that match's capture. */
  lemma TailCharacterized(s: string, h: nat, e: nat)
    ensures TailMatch(s, h, e) ==> Tail(s, h) == Some(s[h + 9..e])
    ensures Tail(s, h).Some? ==> TailMatch(s, h, Find(s, h + 10, s[h + 8]).value)
  {
  }

  /** The whole expression matched from `p`, with `[^>]*` ending at `h`. */
  ghost predicate MetaMatch(s: string, p: nat, h: nat, e: nat) {
    MetaTag.PrefixMatch(s, p, h) && TailMatch(s, h, e)
  }

  /** The quoted value `$2` of the preferred match. */
  function Value(s: string): Option<string> {
    MetaTag.Capture(s, Tail)
  }

  /** The expression matches somewhere exactly when `Value` yields a value. */
  lemma ValueNone(s: string)
    ensures Value(s).None? <==> forall p: nat, h: nat, e: nat :: !MetaMatch(s, p, h, e)
  {
    MetaTag.CaptureNone(s, Tail);
    if Value(s).None? {
      forall p: nat, h: nat, e: nat | MetaMatch(s, p, h, e) ensures false {
        TailCharacterized(s, h, e);
        assert MetaTag.Match(s, Tail, p, h);
      }
    } else {
      var p: nat, h: nat :| MetaTag.Match(s, Tail, p, h);
      TailCharacterized(s, h, 0);
      assert MetaMatch(s, p, h, Find(s, h + 10, s[h + 8]).value);
    }
  }

  /**
   `Value` is the capture of the preferred match: the leftmost `<meta`, and
   at it the longest `[^>]*` after which the tail matches.
   */
  lemma ValueOfPreferred(s: string, p: nat, h: nat, e: nat)
    requires MetaMatch(s, p, h, e)
    requires forall p': nat, h': nat, e': nat :: MetaMatch(s, p', h', e') ==> p < p' || (p == p' && h' <= h)
    ensures Value(s) == Some(s[h + 9..e])
  {
    TailCharacterized(s, h, e);
    forall p': nat, h': nat | MetaTag.Match(s, Tail, p', h') ensures p < p' || (p == p' && h' <= h) {
      TailCharacterized(s, h', 0);
      assert MetaMatch(s, p', h', Find(s, h' + 10, s[h' + 8]).value);
    }
    MetaTag.CaptureOfPreferred(s, Tail, p, h);
  }
}
