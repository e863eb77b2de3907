/** Python's `str.strip()` with no argument, on strings of Unicode scalar values:
    it removes every leading and trailing character for which `str.isspace()`
    holds, and keeps everything between them unchanged. */
module Text {

  /** The characters `str.isspace()` accepts: ASCII tab, line feed, vertical tab,
      form feed, carriage return, the four information separators U+001C..U+001F,
      space, next line U+0085, no-break space U+00A0 (what `&nbsp;` becomes in a
      cell's text), ogham space mark U+1680, the spaces U+2000..U+200A, line and
      paragraph separators U+2028/U+2029, narrow no-break space U+202F, medium
      mathematical space U+205F and ideographic space U+3000. */
  predicate IsSpace(c: char)
  {
    ('\t' <= c <= '\r') || ('\U{001C}' <= c <= ' ') ||
    c == '\U{0085}' || c == '\U{00A0}' || c == '\U{1680}' ||
    ('\U{2000}' <= c <= '\U{200A}') ||
    c == '\U{2028}' || c == '\U{2029}' || c == '\U{202F}' || c == '\U{205F}' ||
    c == '\U{3000}'
  }

  /** Every character of `s` is whitespace (true of the empty string). */
  predicate AllSpace(s: string)
  {
    forall i :: 0 <= i < |s| ==> IsSpace(s[i])
  }

  /** `s` neither starts nor ends with whitespace. */
  predicate IsStripped(s: string)
  {
    s == [] || (!IsSpace(s[0]) && !IsSpace(s[|s| - 1]))
  }

  /** Removes the leading whitespace. */
  function TrimLeft(s: string): string
  {
    if s != [] && IsSpace(s[0]) then TrimLeft(s[1..]) else s
  }

  /** The left trim keeps the suffix of `s` that starts at its first
      non-whitespace character: all it drops is whitespace, and what it keeps
      is empty or starts with a non-whitespace character. */
  lemma {:induction false} TrimLeftIsSuffix(s: string)
    ensures var r := TrimLeft(s);
            |r| <= |s| && r == s[|s| - |r|..] && AllSpace(s[..|s| - |r|]) &&
            (r == [] || !IsSpace(r[0]))
  {
    if s != [] && IsSpace(s[0]) {
      TrimLeftIsSuffix(s[1..]);
      var r := TrimLeft(s[1..]);
      assert s[1..][..|s[1..]| - |r|] == s[1..|s| - |r|];
    }
  }

  /** Removes the trailing whitespace. */
  function TrimRight(s: string): string
  {
    if s != [] && IsSpace(s[|s| - 1]) then TrimRight(s[..|s| - 1]) else s
  }

  /** The right trim keeps the prefix of `s` that ends at its last
      non-whitespace character: all it drops is whitespace, and what it keeps
      is empty or ends with a non-whitespace character. */
  lemma {:induction false} TrimRightIsPrefix(s: string)
    ensures var r := TrimRight(s);
            |r| <= |s| && r == s[..|r|] && AllSpace(s[|r|..]) &&
            (r == [] || !IsSpace(r[|r| - 1]))
  {
    if s != [] && IsSpace(s[|s| - 1]) {
      TrimRightIsPrefix(s[..|s| - 1]);
      var r := TrimRight(s[..|s| - 1]);
      assert s[..|s| - 1][|r|..] == s[|r|..|s| - 1];
    }
  }

  /** `str.strip()`: both ends trimmed. */
  function Strip(s: string): (r: string)
  {
    TrimRight(TrimLeft(s))
  }

  /** The result of `Strip` is the infix `s[i..j]` whose margins `s[..i]` and
      `s[j..]` are all whitespace and which itself has no whitespace at
      either end. */
  lemma StripIsInfix(s: string)
    ensures exists i, j :: 0 <= i <= j <= |s| && Strip(s) == s[i..j] &&
                           AllSpace(s[..i]) && AllSpace(s[j..]) && IsStripped(s[i..j])
  {
    var l := TrimLeft(s);
    var r := TrimRight(l);
    TrimLeftIsSuffix(s);
    TrimRightIsPrefix(l);
    var i := |s| - |l|;
    var j := i + |r|;
    assert s[i..j] == l[..|r|];
    assert s[j..] == l[|r|..];
    if r != [] {
      // The last character of `r` is not whitespace; nor is its first, which is
      // also the first character of `l`.
      assert r[0] == l[0];
    }
  }

  /** A stripped string has no whitespace at either end. */
  lemma StripIsStripped(s: string)
    ensures IsStripped(Strip(s))
  {
    var l := TrimLeft(s);
    var r := TrimRight(l);
    TrimLeftIsSuffix(s);
    TrimRightIsPrefix(l);
    if r != [] {
      assert r[0] == l[0];
    }
  }

  /** Stripping yields the empty string exactly when `s` is all whitespace:
      a whitespace-only cell counts as empty. */
  lemma StripEmptyIff(s: string)
    ensures Strip(s) == [] <==> AllSpace(s)
  {
    var l := TrimLeft(s);
    var r := TrimRight(l);
    TrimLeftIsSuffix(s);
    TrimRightIsPrefix(l);
    var cut := |s| - |l|;
    if r == [] {
      // `l` is all whitespace yet cannot start with whitespace, so it is empty.
      assert l == [];
      assert s[..cut] == s;
    } else {
      var k := cut + |r| - 1;
      assert s[k] == l[|r| - 1] == r[|r| - 1];
      assert !IsSpace(s[k]);
    }
  }

  /** `Strip` leaves an already stripped string unchanged. */
  lemma StripOfStripped(s: string)
    requires IsStripped(s)
    ensures Strip(s) == s
  {
    if s != [] {
      assert TrimLeft(s) == s;
    }
  }

  /** `Strip` is idempotent. */
  lemma StripIdempotent(s: string)
    ensures Strip(Strip(s)) == Strip(s)
  {
    StripIsStripped(s);
    StripOfStripped(Strip(s));
  }
}
