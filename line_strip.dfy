/**
 The body text clean-up `body_element.text.gsub(/^\s+|\s+$/, '')`. In Ruby
 `^` holds at the start of the text and after every line feed, `$` at the
 end of the text and before every line feed, and `\s` includes the line
 feed itself. `gsub` scans from left to right; at each position it tries
 `^\s+` first and `\s+$` second, deletes the match and carries on after
 it, judging the anchors against the original text.
 */
module LineStrip {
  import opened Wrappers
  import opened Text

  /** `^` holds at `i`. */
  predicate LineStart(s: string, i: nat)
    requires i <= |s|
  {
    i == 0 || s[i - 1] == '\n'
  }

  /** `$` holds at `e`. */
  predicate LineEnd(s: string, e: nat)
    requires e <= |s|
  {
    e == |s| || s[e] == '\n'
  }

  /** `^\s+` can match `s[i..e]`, and `e` is where the greedy `\s+` stops. */
  ghost predicate LeadingMatch(s: string, i: nat, e: nat) {
    i < e <= |s| && LineStart(s, i) && AllIn(s, i, e, IsSpace) && (e == |s| || !IsSpace(s[e]))
  }

  /** `\s+$` can match `s[i..e]`. */
  ghost predicate TrailingCandidate(s: string, i: nat, e: nat) {
    i < e <= |s| && AllIn(s, i, e, IsSpace) && LineEnd(s, e)
  }

  /**
   The match the alternation makes at `i`: the first alternative when it
   can match at all, otherwise the longest `\s+` that `$` accepts (the
   greedy `\s+` gives back characters until `$` holds).
   */
  ghost predicate PreferredMatch(s: string, i: nat, e: nat)
    requires i < |s|
  {
    if LineStart(s, i) && IsSpace(s[i]) then LeadingMatch(s, i, e)
    else TrailingCandidate(s, i, e) && forall e': nat :: TrailingCandidate(s, i, e') ==> e' <= e
  }

  /** The last line feed in `s[lo..hi]`. */
  function LastLineFeed(s: string, lo: nat, hi: nat): (r: Option<nat>)
    requires lo <= hi <= |s|
    ensures r.Some? ==> lo <= r.value < hi && s[r.value] == '\n'
    ensures r.Some? ==> forall k :: r.value < k < hi ==> s[k] != '\n'
    ensures r.None? ==> forall k :: lo <= k < hi ==> s[k] != '\n'
    decreases hi
  {
    if hi == lo then None
    else if s[hi - 1] == '\n' then Some(hi - 1)
    else LastLineFeed(s, lo, hi - 1)
  }

  /** The end of the match `/^\s+|\s+$/` makes at `i`, if it matches there. */
  function MatchAt(s: string, i: nat): (r: Option<nat>)
    requires i < |s|
    ensures r.Some? ==> i < r.value <= |s| && AllIn(s, i, r.value, IsSpace)
  {
    if !IsSpace(s[i]) then None
    else
      var m := RunEnd(s, i, IsSpace);
      if LineStart(s, i) || m == |s| then Some(m)
      else LastLineFeed(s, i + 1, m)
  }

  /** `MatchAt` is the regular expression's own choice at `i`. */
  lemma MatchAtIsPreferred(s: string, i: nat, e: nat)
    requires i < |s|
    ensures MatchAt(s, i) == Some(e) <==> PreferredMatch(s, i, e)
  {
    if IsSpace(s[i]) {
      var m := RunEnd(s, i, IsSpace);
      if LineStart(s, i) {
        if LeadingMatch(s, i, e) {
          RunEndUnique(s, i, e, IsSpace);
        }
      } else {
        assert forall e': nat :: TrailingCandidate(s, i, e') ==> e' <= m;
        if m < |s| {
          match LastLineFeed(s, i + 1, m)
          case Some(j) =>
            assert TrailingCandidate(s, i, j);
          case None =>
        } else {
          assert TrailingCandidate(s, i, m);
        }
      }
    }
  }

  /** The output of `gsub` for the part of the text from `i` on. */
  function StripFrom(s: string, i: nat): string
    requires i <= |s|
    decreases |s| - i
  {
    if i == |s| then []
    else match MatchAt(s, i)
      case Some(e) => StripFrom(s, e)
      case None => [s[i]] + StripFrom(s, i + 1)
  }

  /** `text.gsub(/^\s+|\s+$/, '')` */
  function Strip(s: string): string {
    StripFrom(s, 0)
  }

  /** The characters that are not whitespace, in order. */
  function Visible(s: string): string {
    if s == [] then [] else (if IsSpace(s[0]) then [] else [s[0]]) + Visible(s[1..])
  }

  lemma {:induction false} VisibleAppend(a: string, b: string)
    ensures Visible(a + b) == Visible(a) + Visible(b)
  {
    if a == [] {
      assert a + b == b;
    } else {
      assert (a + b)[0] == a[0];
      assert (a + b)[1..] == a[1..] + b;
      VisibleAppend(a[1..], b);
    }
  }

  lemma {:induction false} VisibleOfSpaces(s: string)
    requires AllIn(s, 0, |s|, IsSpace)
    ensures Visible(s) == []
  {
    if s != [] {
      VisibleOfSpaces(s[1..]);
    }
  }

  /** `gsub` keeps every character that is not whitespace, in its order. */
  lemma {:induction false} StripFromKeepsVisible(s: string, i: nat)
    requires i <= |s|
    ensures Visible(StripFrom(s, i)) == Visible(s[i..])
    decreases |s| - i
  {
    if i < |s| {
      match MatchAt(s, i)
      case Some(e) =>
        StripFromKeepsVisible(s, e);
        assert s[i..] == s[i..e] + s[e..];
        VisibleAppend(s[i..e], s[e..]);
        VisibleOfSpaces(s[i..e]);
      case None =>
        StripFromKeepsVisible(s, i + 1);
        assert s[i..] == [s[i]] + s[i + 1..];
        VisibleAppend([s[i]], s[i + 1..]);
        VisibleAppend([s[i]], StripFrom(s, i + 1));
    }
  }

  /** `r` can be obtained from `s` by deleting characters. */
  ghost predicate Subsequence(r: string, s: string)
    decreases |s|
  {
    r == [] || (s != [] && ((r[0] == s[0] && Subsequence(r[1..], s[1..])) || Subsequence(r, s[1..])))
  }

  lemma {:induction false} SubsequenceOfSuffix(r: string, s: string, k: nat)
    requires k <= |s|
    requires Subsequence(r, s[k..])
    ensures Subsequence(r, s)
    decreases k
  {
    if k > 0 {
      assert s[1..][k - 1..] == s[k..];
      SubsequenceOfSuffix(r, s[1..], k - 1);
    }
  }

  /** `gsub` only deletes. */
  lemma {:induction false} StripFromDeletes(s: string, i: nat)
    requires i <= |s|
    ensures Subsequence(StripFrom(s, i), s[i..])
    decreases |s| - i
  {
    if i < |s| {
      match MatchAt(s, i)
      case Some(e) =>
        StripFromDeletes(s, e);
        assert s[i..][e - i..] == s[e..];
        SubsequenceOfSuffix(StripFrom(s, e), s[i..], e - i);
      case None =>
        StripFromDeletes(s, i + 1);
        assert s[i..][1..] == s[i + 1..];
        assert ([s[i]] + StripFrom(s, i + 1))[1..] == StripFrom(s, i + 1);
    }
  }

  /**
   Every line of `r` is stripped: `r` neither starts nor ends with
   whitespace, and each line feed in it sits between two characters that
   are not whitespace (so no line is empty).
   */
  ghost predicate Clean(r: string) {
    && (|r| > 0 ==> !IsSpace(r[0]) && !IsSpace(r[|r| - 1]))
    && forall k :: 0 <= k < |r| && r[k] == '\n' ==> 0 < k < |r| - 1 && !IsSpace(r[k - 1]) && !IsSpace(r[k + 1])
  }

  /**
   What `gsub` leaves of the whitespace run `s[i..m]`: nothing at the start
   or the end of the text; the run itself when it holds no line feed; a
   single line feed when its last line feed is not preceded by another one;
   nothing otherwise.
   */
  function RunRemainder(s: string, i: nat, m: nat): string
    requires i < m <= |s|
  {
    if i == 0 || m == |s| then []
    else match LastLineFeed(s, i, m)
      case None => s[i..m]
      case Some(j) => if j > i && s[j - 1] == '\n' then [] else "\n"
  }

  /** A run starting inside a maximal whitespace run ends where that run ends. */
  lemma RunEndInside(s: string, i: nat, k: nat, m: nat)
    requires i <= k <= m <= |s|
    requires AllIn(s, i, m, IsSpace) && (m == |s| || !IsSpace(s[m]))
    ensures RunEnd(s, k, IsSpace) == m
  {
    RunEndUnique(s, k, m, IsSpace);
  }

  /** Where no match starts, `gsub` copies the text. */
  lemma {:induction false} StripFromCopies(s: string, k: nat, m: nat)
    requires k <= m <= |s|
    requires forall j :: k <= j < m ==> MatchAt(s, j).None?
    ensures StripFrom(s, k) == s[k..m] + StripFrom(s, m)
    decreases m - k
  {
    if k < m {
      assert MatchAt(s, k).None?;
      assert StripFrom(s, k) == [s[k]] + StripFrom(s, k + 1);
      StripFromCopies(s, k + 1, m);
      assert s[k..m] == [s[k]] + s[k + 1..m];
    }
  }

  /** `gsub` turns each maximal whitespace run into its `RunRemainder`. */
  lemma {:induction false} StripFromRun(s: string, i: nat)
    requires i < |s| && IsSpace(s[i]) && (i == 0 || !IsSpace(s[i - 1]))
    ensures StripFrom(s, i) == RunRemainder(s, i, RunEnd(s, i, IsSpace)) + StripFrom(s, RunEnd(s, i, IsSpace))
  {
    var m := RunEnd(s, i, IsSpace);
    if i == 0 || m == |s| {
    } else {
      match LastLineFeed(s, i, m)
      case None =>
        forall j | i <= j < m ensures MatchAt(s, j).None? {
          RunEndInside(s, i, j, m);
        }
        StripFromCopies(s, i, m);
      case Some(l) =>
        if l == i {
          assert MatchAt(s, i).None?;
          if i + 1 < m {
            RunEndInside(s, i, i + 1, m);
            assert MatchAt(s, i + 1) == Some(m);
          }
          assert StripFrom(s, i) == "\n" + StripFrom(s, i + 1);
        } else {
          assert LastLineFeed(s, i + 1, m) == Some(l);
          assert StripFrom(s, i) == StripFrom(s, l);
          RunEndInside(s, i, l, m);
          if s[l - 1] == '\n' {
            assert MatchAt(s, l) == Some(m);
          } else {
            assert LastLineFeed(s, l + 1, m).None?;
            assert MatchAt(s, l).None?;
            if l + 1 < m {
              RunEndInside(s, i, l + 1, m);
              assert MatchAt(s, l + 1) == Some(m);
            }
            assert StripFrom(s, l) == "\n" + StripFrom(s, l + 1);
          }
        }
    }
  }

  /** Joining two clean pieces with nothing, blanks without a line feed, or one line feed keeps them clean. */
  lemma JoinClean(x: char, kept: string, t: string)
    requires !IsSpace(x) && Clean(t) && |t| > 0
    requires kept == "\n" || forall k :: 0 <= k < |kept| ==> kept[k] != '\n'
    ensures Clean([x] + (kept + t))
  {
    var r := [x] + (kept + t);
    forall k | 0 <= k < |r| && r[k] == '\n'
      ensures 0 < k < |r| - 1 && !IsSpace(r[k - 1]) && !IsSpace(r[k + 1])
    {
      if k <= |kept| {
        assert kept == "\n" && k == 1;
      } else {
        assert r[k] == t[k - 1 - |kept|];
      }
    }
  }

  /** A character that is not whitespace is copied. */
  lemma StripFromVisible(s: string, i: nat)
    requires i < |s| && !IsSpace(s[i])
    ensures StripFrom(s, i) == [s[i]] + StripFrom(s, i + 1)
  {
  }

  /** What is left of a whitespace run is one line feed or holds none. */
  lemma RunRemainderShape(s: string, i: nat, m: nat)
    requires i < m <= |s|
    ensures RunRemainder(s, i, m) == "\n" || forall k :: 0 <= k < |RunRemainder(s, i, m)| ==> RunRemainder(s, i, m)[k] != '\n'
  {
    if i != 0 && m != |s| && LastLineFeed(s, i, m).None? {
      assert forall k :: 0 <= k < m - i ==> s[i..m][k] == s[i + k];
    }
  }

  /** A whitespace run between two visible characters leaves a clean join. */
  lemma RunBetweenVisible(s: string, i: nat)
    requires 0 < i < |s| && !IsSpace(s[i - 1]) && IsSpace(s[i])
    requires RunEnd(s, i, IsSpace) < |s|
    requires Clean(StripFrom(s, RunEnd(s, i, IsSpace)))
    ensures Clean([s[i - 1]] + StripFrom(s, i))
  {
    var m := RunEnd(s, i, IsSpace);
    var r := RunRemainder(s, i, m);
    var t := StripFrom(s, m);
    StripFromRun(s, i);
    StripFromVisible(s, m);
    RunRemainderShape(s, i, m);
    JoinClean(s[i - 1], r, t);
  }

  /** After a character that is not whitespace, what `gsub` leaves is clean. */
  lemma {:induction false} StripFromAfterVisible(s: string, i: nat)
    requires 0 < i <= |s| && !IsSpace(s[i - 1])
    ensures Clean([s[i - 1]] + StripFrom(s, i))
    decreases |s| - i
  {
    if i < |s| {
      if !IsSpace(s[i]) {
        StripFromAfterVisible(s, i + 1);
        assert StripFrom(s, i) == [s[i]] + StripFrom(s, i + 1);
        JoinClean(s[i - 1], [], StripFrom(s, i));
        assert [] + StripFrom(s, i) == StripFrom(s, i);
      } else {
        var m := RunEnd(s, i, IsSpace);
        if m < |s| {
          StripFromAfterVisible(s, m + 1);
          assert StripFrom(s, m) == [s[m]] + StripFrom(s, m + 1);
          RunBetweenVisible(s, i);
        } else {
          StripFromRun(s, i);
        }
      }
    }
  }

  /** Every line of the result is stripped, and no line is empty. */
  lemma StripClean(s: string)
    ensures Clean(Strip(s))
  {
    if s != [] {
      if !IsSpace(s[0]) {
        StripFromAfterVisible(s, 1);
      } else {
        StripFromRun(s, 0);
        var m := RunEnd(s, 0, IsSpace);
        if m < |s| {
          assert StripFrom(s, m) == [s[m]] + StripFrom(s, m + 1);
          StripFromAfterVisible(s, m + 1);
        }
      }
    }
  }

  /** Wherever the expression matches, the text is not clean. */
  lemma MatchBreaksClean(s: string, i: nat)
    requires i < |s| && MatchAt(s, i).Some?
    ensures !Clean(s)
  {
    var m := RunEnd(s, i, IsSpace);
    if i == 0 {
    } else if s[i - 1] == '\n' {
      assert s[(i - 1) + 1] == s[i];
    } else if m == |s| {
      assert IsSpace(s[|s| - 1]);
    } else {
      var j := LastLineFeed(s, i + 1, m).value;
      assert IsSpace(s[j - 1]);
    }
  }

  /** Exactly the clean texts come out of `gsub` unchanged. */
  lemma StripFixpoint(s: string)
    ensures Strip(s) == s <==> Clean(s)
  {
    if Clean(s) {
      forall j | 0 <= j < |s| ensures MatchAt(s, j).None? {
        if MatchAt(s, j).Some? {
          MatchBreaksClean(s, j);
        }
      }
      StripFromCopies(s, 0, |s|);
    } else {
      StripClean(s);
    }
  }

  /** Stripping twice is stripping once. */
  lemma StripIdempotent(s: string)
    ensures Strip(Strip(s)) == Strip(s)
  {
    StripClean(s);
    StripFixpoint(Strip(s));
  }

  /** `gsub` keeps the visible characters in order and deletes only whitespace. */
  lemma StripDeletesOnlyWhitespace(s: string)
    ensures Visible(Strip(s)) == Visible(s)
    ensures Subsequence(Strip(s), s)
  {
    StripFromKeepsVisible(s, 0);
    StripFromDeletes(s, 0);
  }

  /** Whitespace around a line goes; the line itself stays. */
  lemma StripExampleSurrounded()
    ensures Strip("\n  Hello\n") == "Hello"
  {
    var s := "\n  Hello\n";
    RunEndUnique(s, 0, 3, IsSpace);
    StripFromRun(s, 0);
    forall j | 3 <= j < 8 ensures MatchAt(s, j).None? {
    }
    StripFromCopies(s, 3, 8);
    RunEndUnique(s, 8, 9, IsSpace);
    StripFromRun(s, 8);
    assert s[3..8] == "Hello";
  }

  /** Indentation is removed and the line break kept. */
  lemma StripExampleIndented()
    ensures Strip("Hello\n  World") == "Hello\nWorld"
  {
    var s := "Hello\n  World";
    assert forall j :: 0 <= j < 5 || 8 <= j < 13 ==> !IsSpace(s[j]);
    StripFromCopies(s, 8, 13);
    assert StripFrom(s, 8) == "World";
    RunEndUnique(s, 5, 8, IsSpace);
    StripFromRun(s, 5);
    assert StripFrom(s, 5) == "\nWorld";
    StripFromCopies(s, 0, 5);
    assert s[0..5] == "Hello";
  }

  /**
   A blank line makes the lines around it join: `^\s+` at the start of the
   empty line deletes its line feed too.
   */
  lemma StripExampleBlankLine()
    ensures Strip("a\n\nb") == "ab"
  {
    var s := "a\n\nb";
    assert MatchAt(s, 0).None?;
    RunEndUnique(s, 1, 3, IsSpace);
    StripFromRun(s, 1);
    assert MatchAt(s, 3).None?;
  }

  /**
   A run whose last line feed follows a line of spaces keeps one line
   feed: only a line feed directly after another one makes a run vanish.
   */
  lemma StripExampleSpacedBlankLine()
    ensures Strip("a\n\n \nb") == "a\nb"
  {
    var s := "a\n\n \nb";
    assert MatchAt(s, 0).None?;
    RunEndUnique(s, 1, 5, IsSpace);
    StripFromRun(s, 1);
    assert MatchAt(s, 5).None?;
  }
}
