/** The string operations the chatbot relies on: Python's `str.strip()`,
    `str.lower()` and the substring test `a in b`, over `string` (a sequence
    of Unicode scalar values). */
module Text {

  /** Python's `str.isspace()` for a single character: the characters that
      `str.strip()` with no argument removes. */
  predicate IsSpace(c: char) {
    || ('\t' <= c <= '\r')                  // tab, line feed, vertical tab, form feed, carriage return
    || ('\U{1C}' <= c <= '\U{1F}')          // file, group, record and unit separators
    || c == ' '
    || c == '\U{85}' || c == '\U{A0}' || c == '\U{1680}'
    || ('\U{2000}' <= c <= '\U{200A}')
    || c == '\U{2028}' || c == '\U{2029}' || c == '\U{202F}' || c == '\U{205F}' || c == '\U{3000}'
  }

  /** Upper-case letters that `Lower` maps: ASCII A-Z and the Latin-1
      capitals U+00C0..U+00DE except the multiplication sign U+00D7. */
  predicate IsUpper(c: char) {
    ('A' <= c <= 'Z') || ('\U{C0}' <= c <= '\U{DE}' && c != '\U{D7}')
  }

  /** Lower-casing of one character. */
  function Lower(c: char): (r: char)
    ensures !IsUpper(r)
    ensures IsSpace(r) == IsSpace(c)
    ensures !IsUpper(c) ==> r == c
  {
    if IsUpper(c) then (c as int + 32) as char else c
  }

  /** Python's `str.lower()`, character by character. */
  function ToLower(s: string): (r: string)
    ensures |r| == |s|
    ensures forall i :: 0 <= i < |s| ==> r[i] == Lower(s[i])
  {
    seq(|s|, i requires 0 <= i < |s| => Lower(s[i]))
  }

  /** Every character of `s` is white space. */
  predicate AllSpace(s: string) {
    forall i :: 0 <= i < |s| ==> IsSpace(s[i])
  }

  /** `s` neither starts nor ends with white space: a fixed point of `Strip`. */
  predicate Trimmed(s: string) {
    s == [] || (!IsSpace(s[0]) && !IsSpace(s[|s| - 1]))
  }

  /** Python's `str.lstrip()`: drops leading white space. */
  function StripLeft(s: string): string {
    if s != [] && IsSpace(s[0]) then StripLeft(s[1..]) else s
  }

  /** Python's `str.rstrip()`: drops trailing white space. */
  function StripRight(s: string): string {
    if s != [] && IsSpace(s[|s| - 1]) then StripRight(s[..|s| - 1]) else s
  }

  /** `lstrip` leaves the suffix of `s` that starts at its first non-space character. */
  lemma {:induction false} StripLeftSuffix(s: string)
    ensures |StripLeft(s)| <= |s| && StripLeft(s) == s[|s| - |StripLeft(s)|..]
    ensures AllSpace(s[..|s| - |StripLeft(s)|])
    ensures StripLeft(s) == [] || !IsSpace(StripLeft(s)[0])
  {
    if s != [] && IsSpace(s[0]) {
      StripLeftSuffix(s[1..]);
      assert s[..|s| - |StripLeft(s)|] == [s[0]] + s[1..][..|s| - 1 - |StripLeft(s)|];
    }
  }

  /** `rstrip` leaves the prefix of `s` that ends at its last non-space character. */
  lemma {:induction false} StripRightPrefix(s: string)
    ensures |StripRight(s)| <= |s| && StripRight(s) == s[..|StripRight(s)|]
    ensures AllSpace(s[|StripRight(s)|..])
    ensures StripRight(s) == [] || !IsSpace(StripRight(s)[|StripRight(s)| - 1])
  {
    if s != [] && IsSpace(s[|s| - 1]) {
      StripRightPrefix(s[..|s| - 1]);
      assert s[|StripRight(s)|..] == s[..|s| - 1][|StripRight(s)|..] + [s[|s| - 1]];
    }
  }

  /** `s` is `r` with `lead` white-space characters before it and only white space after it. */
  predicate Framed(s: string, r: string, lead: int) {
    && 0 <= lead <= |s| - |r|
    && s[lead..lead + |r|] == r
    && AllSpace(s[..lead])
    && AllSpace(s[lead + |r|..])
  }

  /** Python's `str.strip()`: empty exactly when `s` is all white space. */
  function Strip(s: string): (r: string)
    ensures |r| <= |s|
    ensures r == [] <==> AllSpace(s)
  {
    StripLeftSuffix(s);
    StripRightPrefix(StripLeft(s));
    assert StripLeft(s) != [] ==> !AllSpace(s) by {
      if StripLeft(s) != [] {
        assert !IsSpace(s[|s| - |StripLeft(s)|]);
      }
    }
    assert StripLeft(s) == [] ==> AllSpace(s) by {
      assert s[..|s|] == s;
    }
    StripRight(StripLeft(s))
  }

  /** `str.strip()` gives the trimmed middle of `s`, with only white space around it. */
  lemma StripFramed(s: string)
    ensures Trimmed(Strip(s))
    ensures exists lead :: Framed(s, Strip(s), lead)
  {
    var left := StripLeft(s);
    var r := StripRight(left);
    StripLeftSuffix(s);
    StripRightPrefix(left);
    var lead := |s| - |left|;
    assert s[lead..] == left;
    assert s[lead..lead + |r|] == r;
    assert s[lead + |r|..] == left[|r|..];
    assert Framed(s, r, lead);
  }

  /** `s.strip().lower()`: how questions and chat messages are normalised. */
  function Normalize(s: string): (r: string)
    ensures r == [] <==> Strip(s) == []
    ensures forall i :: 0 <= i < |r| ==> !IsUpper(r[i])
  {
    ToLower(Strip(s))
  }

  /** A normalised string has no white space at either end. */
  lemma NormalizeTrimmed(s: string)
    ensures Trimmed(Normalize(s))
  {
    StripFramed(s);
  }

  /** `h.lower().strip()`: how header cells are normalised. */
  function NormalizeHeaderCell(h: string): (r: string)
    ensures forall i :: 0 <= i < |r| ==> !IsUpper(r[i])
  {
    var low := ToLower(h);
    StripFramed(low);
    Strip(low)
  }

  lemma {:induction false} StripLeftSpaces(p: string, x: string)
    requires AllSpace(p)
    ensures StripLeft(p + x) == StripLeft(x)
  {
    if p != [] {
      assert (p + x)[1..] == p[1..] + x;
      StripLeftSpaces(p[1..], x);
    } else {
      assert p + x == x;
    }
  }

  lemma {:induction false} StripRightSpaces(x: string, q: string)
    requires AllSpace(q)
    ensures StripRight(x + q) == StripRight(x)
  {
    if q != [] {
      assert (x + q)[..|x + q| - 1] == x + q[..|q| - 1];
      StripRightSpaces(x, q[..|q| - 1]);
    } else {
      assert x + q == x;
    }
  }

  /** Stripping removes exactly the white-space padding around a trimmed string. */
  lemma StripPadding(lead: string, s: string, trail: string)
    requires AllSpace(lead) && AllSpace(trail) && Trimmed(s)
    ensures Strip(lead + s + trail) == s
  {
    assert lead + s + trail == lead + (s + trail);
    StripLeftSpaces(lead, s + trail);
    if s == [] {
      assert s + trail == trail;
      StripLeftSuffix(trail);
    } else {
      assert StripLeft(s + trail) == s + trail;
      StripRightSpaces(s, trail);
      assert StripRight(s) == s;
    }
  }

  /** `str.strip()` is idempotent, and leaves a trimmed string alone. */
  lemma StripTrimmed(s: string)
    requires Trimmed(s)
    ensures Strip(s) == s
  {
  }

  lemma ToLowerConcat(a: string, b: string, c: string)
    ensures ToLower(a + b + c) == ToLower(a) + ToLower(b) + ToLower(c)
  {
  }

  /** Lower-casing keeps white-space padding white space and a trimmed middle
      trimmed, so stripping the lower-cased string leaves the lower-cased middle. */
  lemma LowerPadding(a: string, m: string, c: string)
    requires AllSpace(a) && AllSpace(c) && Trimmed(m)
    ensures Strip(ToLower(a + m + c)) == ToLower(m)
  {
    ToLowerConcat(a, m, c);
    assert AllSpace(ToLower(a)) && AllSpace(ToLower(c));
    assert Trimmed(ToLower(m));
    StripPadding(ToLower(a), ToLower(m), ToLower(c));
  }

  /** Lower-casing and stripping commute, so a header cell normalised by
      `lower().strip()` equals one normalised by `strip().lower()`. */
  lemma {:induction false} LowerStripCommute(s: string)
    ensures NormalizeHeaderCell(s) == Normalize(s)
  {
    var st := Strip(s);
    StripFramed(s);
    var lead :| Framed(s, st, lead);
    var a, c := s[..lead], s[lead + |st|..];
    assert s == a + st + c;
    LowerPadding(a, st, c);
  }

  /** `Normalize` is idempotent: a normalised string is its own normal form. */
  lemma NormalizeIdempotent(s: string)
    ensures Normalize(Normalize(s)) == Normalize(s)
  {
    NormalizeTrimmed(s);
    StripTrimmed(Normalize(s));
  }

  /** Python's `needle in hay` on strings: a contiguous occurrence. */
  ghost predicate IsSubstring(needle: string, hay: string) {
    exists i :: OccursAt(needle, hay, i)
  }

  /** `needle` occurs in `hay` starting at index `i`. */
  predicate OccursAt(needle: string, hay: string, i: int) {
    0 <= i <= |hay| - |needle| && hay[i..i + |needle|] == needle
  }

  /** The executable substring test, scanning `hay` from the left. */
  function Contains(hay: string, needle: string): (b: bool)
    ensures b <==> IsSubstring(needle, hay)
  {
    if needle <= hay then
      assert OccursAt(needle, hay, 0);
      true
    else if hay == [] then
      false
    else
      var rest := Contains(hay[1..], needle);
      assert rest ==> IsSubstring(needle, hay) by {
        if rest {
          var i :| OccursAt(needle, hay[1..], i);
          assert hay[i + 1..i + 1 + |needle|] == hay[1..][i..i + |needle|];
          assert OccursAt(needle, hay, i + 1);
        }
      }
      assert IsSubstring(needle, hay) ==> rest by {
        if IsSubstring(needle, hay) {
          var i :| OccursAt(needle, hay, i);
          assert i != 0;
          assert hay[1..][i - 1..i - 1 + |needle|] == hay[i..i + |needle|];
          assert OccursAt(needle, hay[1..], i - 1);
        }
      }
      rest
  }
}
