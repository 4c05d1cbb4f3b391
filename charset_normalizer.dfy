/**
 `normalize_charset`: maps the charset labels that name Shift_JIS to the
 encoding browsers actually use for them, Windows-31J, and leaves every
 other label alone.
 */
module CharsetNormalizer {
  import opened Text

  const WindowsThirtyOneJ := "Windows-31J"

  /** `/\Ax-sjis\z/i` */
  predicate IsXSjis(c: string) {
    EqualsIgnoreCase(c, "x-sjis")
  }

  /** `/\Ashift[_-]jis\z/i` */
  predicate IsShiftJis(c: string) {
    |c| == 9 && LowerPrefixAt(c, 0, "shift") && (c[5] == '_' || c[5] == '-') && LowerPrefixAt(c, 6, "jis")
  }

  /**
   The `case` of `normalize_charset`; an `x-sjis` label is renormalized as
   `Shift_JIS`. The label comes back unchanged or as `Windows-31J`, and the
   result matches neither pattern.
   */
  function NormalizeCharset(c: string): (r: string)
    ensures r == c || r == WindowsThirtyOneJ
    ensures !IsXSjis(r) && !IsShiftJis(r)
    decreases if IsXSjis(c) then 1 else 0
  {
    if IsXSjis(c) then ShiftJisLabel(); NormalizeCharset("Shift_JIS")
    else if IsShiftJis(c) then WindowsThirtyOneJ
    else c
  }

  /** The label `Shift_JIS` that `x-sjis` is rewritten to belongs to the Shift_JIS family. */
  lemma ShiftJisLabel()
    ensures IsShiftJis("Shift_JIS") && !IsXSjis("Shift_JIS")
  {
    var t := "Shift_JIS";
    assert Lower(t[0]) == 's' && Lower(t[1]) == 'h' && Lower(t[2]) == 'i' && Lower(t[3]) == 'f' && Lower(t[4]) == 't';
    assert Lower(t[6]) == 'j' && Lower(t[7]) == 'i' && Lower(t[8]) == 's';
  }

  /** `Windows-31J` matches neither pattern of the `case`. */
  lemma WindowsThirtyOneJIsCanonical()
    ensures !IsXSjis(WindowsThirtyOneJ) && !IsShiftJis(WindowsThirtyOneJ)
  {
  }

  /** Any letter case of `x-sjis`, through the recursion on `Shift_JIS`, becomes `Windows-31J`. */
  lemma XSjisBecomesWindowsThirtyOneJ(c: string)
    requires IsXSjis(c)
    ensures NormalizeCharset(c) == "Windows-31J"
  {
    ShiftJisLabel();
  }

  /**
   The whole behaviour: the two Shift_JIS spellings, and `x-sjis`, in any
   letter case, become `Windows-31J`; every other label is returned as it is.
   */
  lemma NormalizeCharsetCases(c: string)
    ensures NormalizeCharset(c) == if IsXSjis(c) || IsShiftJis(c) then "Windows-31J" else c
  {
    if IsXSjis(c) {
      XSjisBecomesWindowsThirtyOneJ(c);
    }
  }

  /** A label is left unchanged exactly when it matches neither pattern. */
  lemma NormalizeCharsetFixedPoints(c: string)
    ensures NormalizeCharset(c) == c <==> !IsXSjis(c) && !IsShiftJis(c)
  {
    NormalizeCharsetCases(c);
    WindowsThirtyOneJIsCanonical();
  }

  /** The result of a normalization matches neither pattern again. */
  lemma NormalizeCharsetCanonical(c: string)
    ensures !IsXSjis(NormalizeCharset(c)) && !IsShiftJis(NormalizeCharset(c))
  {
    NormalizeCharsetCases(c);
    WindowsThirtyOneJIsCanonical();
  }

  /** Normalizing twice is normalizing once. */
  lemma NormalizeCharsetIdempotent(c: string)
    ensures NormalizeCharset(NormalizeCharset(c)) == NormalizeCharset(c)
  {
    NormalizeCharsetCanonical(c);
    NormalizeCharsetFixedPoints(NormalizeCharset(c));
  }

  /** The labels the tests feed through a Content-Type meta tag. */
  lemma NormalizeCharsetExamples()
    ensures NormalizeCharset("x-sjis") == "Windows-31J"
    ensures NormalizeCharset("X-SJIS") == "Windows-31J"
    ensures NormalizeCharset("Shift-JIS") == "Windows-31J"
    ensures NormalizeCharset("Shift_JIS") == "Windows-31J"
    ensures NormalizeCharset("EUC-JP") == "EUC-JP"
  {
    var x, X, h := "x-sjis", "X-SJIS", "Shift-JIS";
    assert Lower(X[0]) == 'x' && Lower(X[2]) == 's' && Lower(X[3]) == 'j' && Lower(X[4]) == 'i' && Lower(X[5]) == 's';
    assert IsXSjis(x) && IsXSjis(X);
    XSjisBecomesWindowsThirtyOneJ(x);
    XSjisBecomesWindowsThirtyOneJ(X);
    assert Lower(h[0]) == 's' && Lower(h[1]) == 'h' && Lower(h[2]) == 'i' && Lower(h[3]) == 'f' && Lower(h[4]) == 't';
    assert Lower(h[6]) == 'j' && Lower(h[7]) == 'i' && Lower(h[8]) == 's';
    assert IsShiftJis(h);
    ShiftJisLabel();
    var e := "EUC-JP";
    assert Lower(e[0]) == 'e' && Lower(x[0]) == 'x';
    assert !IsXSjis(e);
  }
}
