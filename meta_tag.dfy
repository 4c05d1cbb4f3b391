/**
 The prefix `<meta\s[^>]*` that the second and third rules of
 `guess_encoding` share (both carry the flags `i`, `m` and `x`), and the
 way Ruby's regex engine searches with it: the leftmost start position
 wins, and at that position the greedy `[^>]*` tries its longest run first,
 giving back one character at a time until the rest of the expression (the
 tail) matches.
 */
module MetaTag {
  import opened Wrappers
  import opened Text

  /** What follows `[^>]*`: tried at a position, it yields the captured text or fails. */
  type Tail = (string, nat) -> Option<string>

  /** `<meta\s` at `p`, letter case ignored. */
  predicate OpensAt(s: string, p: nat) {
    p + 6 <= |s| && LowerPrefixAt(s, p, "<meta") && IsSpace(s[p + 5])
  }

  /** `<meta\s[^>]*` matched from `p` with its `[^>]*` covering `s[p + 6..h]`. */
  ghost predicate PrefixMatch(s: string, p: nat, h: nat) {
    OpensAt(s, p) && p + 6 <= h <= |s| && AllIn(s, p + 6, h, IsNotGt)
  }

  /** A match of the whole expression starting at `p`, the tail starting at `h`. */
  ghost predicate Match(s: string, tail: Tail, p: nat, h: nat) {
    PrefixMatch(s, p, h) && tail(s, h).Some?
  }

  /** Backtracking of the greedy `[^>]*`: the largest `h` in `[lo, hi]` at which the tail matches. */
  function LongestRun(s: string, tail: Tail, lo: nat, hi: nat): (r: Option<nat>)
    requires lo <= hi
    ensures r.Some? ==> lo <= r.value <= hi && tail(s, r.value).Some?
    ensures r.Some? ==> forall h :: r.value < h <= hi ==> tail(s, h).None?
    ensures r.None? ==> forall h :: lo <= h <= hi ==> tail(s, h).None?
    decreases hi
  {
    if tail(s, hi).Some? then Some(hi)
    else if hi == lo then None
    else LongestRun(s, tail, lo, hi - 1)
  }

  /** Every `[^>]*` run from `p + 6` ends at or before the first `>`. */
  lemma PrefixEndsBeforeGt(s: string, p: nat, h: nat)
    requires PrefixMatch(s, p, h)
    ensures h <= RunEnd(s, p + 6, IsNotGt)
  {
  }

  /** The match the engine settles on when it starts trying at `p`: (start, tail position). */
  function SearchFrom(s: string, tail: Tail, p: nat): (r: Option<(nat, nat)>)
    requires p <= |s|
    ensures r.Some? ==> p <= r.value.0 && Match(s, tail, r.value.0, r.value.1)
    decreases |s| - p
  {
    if p == |s| then None
    else if OpensAt(s, p) then
      match LongestRun(s, tail, p + 6, RunEnd(s, p + 6, IsNotGt))
      case Some(h) => assert PrefixMatch(s, p, h); Some((p, h))
      case None => SearchFrom(s, tail, p + 1)
    else SearchFrom(s, tail, p + 1)
  }

  /**
   The engine's answer is the preferred match: no match starts earlier, and
   none at the same start has a longer `[^>]*`.
   */
  lemma {:induction false} SearchFromPreferred(s: string, tail: Tail, p: nat)
    requires p <= |s|
    ensures SearchFrom(s, tail, p).Some? ==>
      var (q, h) := SearchFrom(s, tail, p).value;
      && p <= q
      && Match(s, tail, q, h)
      && forall q': nat, h': nat :: p <= q' && Match(s, tail, q', h') ==> q < q' || (q == q' && h' <= h)
    ensures SearchFrom(s, tail, p).None? ==> forall q': nat, h': nat :: p <= q' ==> !Match(s, tail, q', h')
    decreases |s| - p
  {
    if p == |s| {
    } else {
      SearchFromPreferred(s, tail, p + 1);
      if OpensAt(s, p) {
        var g := RunEnd(s, p + 6, IsNotGt);
        forall h' | Match(s, tail, p, h') ensures h' <= g {
          PrefixEndsBeforeGt(s, p, h');
        }
        match LongestRun(s, tail, p + 6, g)
        case Some(h) =>
          assert PrefixMatch(s, p, h);
        case None =>
      }
    }
  }

  /** The text the tail captured in the preferred match, if the expression matches at all. */
  function Capture(s: string, tail: Tail): (r: Option<string>)
    ensures r.Some? ==> exists p: nat, h: nat :: Match(s, tail, p, h) && r == tail(s, h)
  {
    match SearchFrom(s, tail, 0)
    case Some((_, h)) => tail(s, h)
    case None => None
  }

  /** `Capture` fails exactly when the expression matches nowhere. */
  lemma CaptureNone(s: string, tail: Tail)
    ensures Capture(s, tail).None? <==> forall p: nat, h: nat :: !Match(s, tail, p, h)
  {
    SearchFromPreferred(s, tail, 0);
  }

  /** `Capture` yields what the tail captures in the preferred match. */
  lemma CaptureOfPreferred(s: string, tail: Tail, p: nat, h: nat)
    requires Match(s, tail, p, h)
    requires forall p': nat, h': nat :: Match(s, tail, p', h') ==> p < p' || (p == p' && h' <= h)
    ensures Capture(s, tail) == tail(s, h)
  {
    SearchFromPreferred(s, tail, 0);
  }
}
