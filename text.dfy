/** Optional values, standing for Ruby's `nil`. */
module Wrappers {
  datatype Option<+T> = None | Some(value: T)
}

/**
 Character classes and small string searches shared by the regular
 expressions of the HTML decomposer. Strings are sequences of characters;
 case-insensitive matching (a regex's `i` flag) folds ASCII letters.
 */
module Text {
  import opened Wrappers

  /** Ruby's `\s`: space, tab, line feed, vertical tab, form feed, carriage return. */
  predicate IsSpace(c: char) {
    c == ' ' || c == '\t' || c == '\n' || c == '\U{000B}' || c == '\U{000C}' || c == '\r'
  }

  /** The class `[^>]`. */
  predicate IsNotGt(c: char) {
    c != '>'
  }

  /** The class `[a-zA-Z0-9_-]` that encoding names are made of. */
  predicate IsNameChar(c: char) {
    'a' <= c <= 'z' || 'A' <= c <= 'Z' || '0' <= c <= '9' || c == '_' || c == '-'
  }

  /** Ruby's `\w`, the characters a `\b` boundary separates from the others. */
  predicate IsWordChar(c: char) {
    'a' <= c <= 'z' || 'A' <= c <= 'Z' || '0' <= c <= '9' || c == '_'
  }

  /** The class `['"]`. */
  predicate IsQuote(c: char) {
    c == '\'' || c == '"'
  }

  /** ASCII lower-casing, the folding a regex's `i` flag applies. */
  function Lower(c: char): char {
    if 'A' <= c <= 'Z' then (c as int + 32) as char else c
  }

  /** `s[i..]` begins with `lit`, letter case ignored. */
  predicate LowerPrefixAt(s: string, i: nat, lit: string) {
    i + |lit| <= |s| && forall k :: 0 <= k < |lit| ==> Lower(s[i + k]) == Lower(lit[k])
  }

  /** `a` equals `b` up to letter case: `/\Ab\z/i =~ a`. */
  predicate EqualsIgnoreCase(a: string, b: string) {
    |a| == |b| && LowerPrefixAt(a, 0, b)
  }

  /** Every character of `s[i..j]` satisfies `p`. */
  ghost predicate AllIn(s: string, i: nat, j: nat, p: char -> bool)
    requires i <= j <= |s|
  {
    forall k :: i <= k < j ==> p(s[k])
  }

  /**
   The end of the longest run of characters satisfying `p` that starts at
   `i`: where a greedy `p*` starting at `i` stops.
   */
  function RunEnd(s: string, i: nat, p: char -> bool): (j: nat)
    requires i <= |s|
    ensures i <= j <= |s|
    ensures AllIn(s, i, j, p)
    ensures j == |s| || !p(s[j])
    decreases |s| - i
  {
    if i == |s| || !p(s[i]) then i else RunEnd(s, i + 1, p)
  }

  /** A run that starts at `i`, covers `[i, j)` and stops before a character outside `p` is the longest one. */
  lemma RunEndUnique(s: string, i: nat, j: nat, p: char -> bool)
    requires i <= j <= |s|
    requires AllIn(s, i, j, p)
    requires j == |s| || !p(s[j])
    ensures RunEnd(s, i, p) == j
  {
  }

  /** The first index at or after `i` that holds `c`: where a lazy `.+?c` stops. */
  function Find(s: string, i: nat, c: char): (r: Option<nat>)
    requires i <= |s|
    ensures r.Some? ==> i <= r.value < |s| && s[r.value] == c
    ensures r.Some? ==> forall k :: i <= k < r.value ==> s[k] != c
    ensures r.None? ==> forall k :: i <= k < |s| ==> s[k] != c
    decreases |s| - i
  {
    if i == |s| then None else if s[i] == c then Some(i) else Find(s, i + 1, c)
  }
}
