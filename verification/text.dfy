/** The string tests the filters are built from (Java's `String.isBlank`, lower-casing, the
    `LIKE '%x%'` substring test) and the ones bean validation applies (`String.trim` and the
    UTF-16 length). */
module Text {

  /** `Character.isWhitespace`: the Unicode space, line and paragraph separators other than the
      three no-break spaces, plus the controls U+0009..U+000D and U+001C..U+001F. */
  predicate IsWhitespace(c: char) {
    var n := c as int;
    || n == 0x20
    || 0x09 <= n <= 0x0D
    || 0x1C <= n <= 0x1F
    || n == 0x1680
    || 0x2000 <= n <= 0x2006
    || 0x2008 <= n <= 0x200A
    || n == 0x2028 || n == 0x2029
    || n == 0x205F || n == 0x3000
  }

  /** `String.isBlank`: empty, or whitespace only. */
  predicate IsBlank(s: string) {
    forall i :: 0 <= i < |s| ==> IsWhitespace(s[i])
  }

  /** `String.trim`, as Hibernate's `@NotBlank` applies it: drop the leading and trailing
      characters at or below U+0020. This is not `isBlank`: it strips every control character
      and keeps the Unicode spaces. */
  function Trim(s: string): string {
    TrimEnd(TrimStart(s))
  }

  function TrimStart(s: string): (r: string)
    ensures |r| <= |s| && (|r| > 0 ==> r[0] as int > 0x20)
    decreases |s|
  {
    if |s| > 0 && s[0] as int <= 0x20 then TrimStart(s[1..]) else s
  }

  function TrimEnd(s: string): string
    decreases |s|
  {
    if |s| > 0 && s[|s| - 1] as int <= 0x20 then TrimEnd(s[..|s| - 1]) else s
  }

  /** `@NotBlank`: `trim()` leaves something, which is to say some character is above U+0020. */
  predicate NotBlank(s: string) {
    exists i :: 0 <= i < |s| && s[i] as int > 0x20
  }

  /** Trimming the front removes exactly a run of characters at or below U+0020. */
  lemma {:induction false} TrimStartEmptyIff(s: string)
    ensures |TrimStart(s)| == 0 <==> !NotBlank(s)
    decreases |s|
  {
    if |s| > 0 && s[0] as int <= 0x20 {
      TrimStartEmptyIff(s[1..]);
      if NotBlank(s[1..]) {
        var i :| 0 <= i < |s[1..]| && s[1..][i] as int > 0x20;
        assert s[i + 1] as int > 0x20;
      }
      if NotBlank(s) {
        var i :| 0 <= i < |s| && s[i] as int > 0x20;
        assert s[1..][i - 1] as int > 0x20;
      }
    } else if |s| > 0 {
      assert s[0] as int > 0x20;
    }
  }

  /** Trimming the back never removes a first character above U+0020. */
  lemma {:induction false} TrimEndKeepsFirst(s: string)
    requires |s| > 0 && s[0] as int > 0x20
    ensures |TrimEnd(s)| > 0
    decreases |s|
  {
    if s[|s| - 1] as int <= 0x20 {
      TrimEndKeepsFirst(s[..|s| - 1]);
    }
  }

  /** The positional reading of `@NotBlank` and the trimming one agree, both ways. */
  lemma NotBlankIffTrimNonEmpty(s: string)
    ensures NotBlank(s) <==> |Trim(s)| > 0
  {
    TrimStartEmptyIff(s);
    if NotBlank(s) {
      TrimEndKeepsFirst(TrimStart(s));
    }
  }

  /** `String.length()`: UTF-16 code units, two for a character outside the Basic Multilingual
      Plane. This is what `@Size` counts. */
  function Utf16Length(s: string): nat
    decreases |s|
  {
    if |s| == 0 then 0 else (if s[0] as int >= 0x1_0000 then 2 else 1) + Utf16Length(s[1..])
  }

  /** The UTF-16 length lies between the character count and twice it, and equals the character
      count exactly when no character needs a surrogate pair. */
  lemma {:induction false} Utf16LengthBounds(s: string)
    ensures |s| <= Utf16Length(s) <= 2 * |s|
    ensures Utf16Length(s) == |s| <==> forall i :: 0 <= i < |s| ==> s[i] as int < 0x1_0000
    decreases |s|
  {
    if |s| > 0 {
      Utf16LengthBounds(s[1..]);
      assert forall i :: 1 <= i < |s| ==> s[i] == s[1..][i - 1];
    }
  }

  /** Lower-casing of one character, restricted to ASCII letters. */
  function LowerChar(c: char): char {
    if 'A' <= c <= 'Z' then (c as int + 32) as char else c
  }

  function Lower(s: string): (r: string)
    ensures |r| == |s|
    ensures forall i :: 0 <= i < |s| ==> r[i] == LowerChar(s[i])
  {
    seq(|s|, i requires 0 <= i < |s| => LowerChar(s[i]))
  }

  predicate IsPrefix(p: string, s: string) {
    |p| <= |s| && p == s[..|p|]
  }

  /** `s LIKE '%sub%'` without wildcard characters in `sub`: some suffix of `s` starts with `sub`. */
  function Contains(s: string, sub: string): bool
    decreases |s|
  {
    IsPrefix(sub, s) || (|s| > 0 && Contains(s[1..], sub))
  }

  /** The reference reading of containment: `sub` occurs at some position of `s`. */
  ghost predicate OccursAt(s: string, sub: string, i: int) {
    0 <= i && i + |sub| <= |s| && s[i..i + |sub|] == sub
  }

  ghost predicate Occurs(s: string, sub: string) {
    exists i :: OccursAt(s, sub, i)
  }

  /** An occurrence in the tail is an occurrence one position further on in the whole. */
  lemma OccursInTail(s: string, sub: string, i: int)
    requires |s| > 0 && 0 <= i
    ensures OccursAt(s[1..], sub, i) <==> OccursAt(s, sub, i + 1)
  {
    if i + |sub| <= |s| - 1 {
      assert s[1..][i..i + |sub|] == s[i + 1..i + 1 + |sub|];
    }
  }

  /** The scanning definition and the positional definition agree, in both directions. */
  lemma {:induction false} ContainsIffOccurs(s: string, sub: string)
    ensures Contains(s, sub) <==> Occurs(s, sub)
    decreases |s|
  {
    if IsPrefix(sub, s) {
      assert OccursAt(s, sub, 0);
    } else if |s| == 0 {
    } else {
      ContainsIffOccurs(s[1..], sub);
      if Contains(s[1..], sub) {
        var i :| OccursAt(s[1..], sub, i);
        OccursInTail(s, sub, i);
      }
      if Occurs(s, sub) {
        var i :| OccursAt(s, sub, i);
        assert i != 0;
        OccursInTail(s, sub, i - 1);
      }
    }
  }

  /** `lower(field) LIKE '%' || lower(param) || '%'`, as the filters build it. */
  function ContainsIgnoringCase(s: string, sub: string): bool {
    Contains(Lower(s), Lower(sub))
  }

  lemma LowerIdempotent(s: string)
    ensures Lower(Lower(s)) == Lower(s)
  {
  }

  /** Every string contains the empty string, so `LIKE '%%'` matches every non-null value. */
  lemma {:induction false} ContainsEmpty(s: string)
    ensures Contains(s, "")
  {
    assert IsPrefix("", s);
  }

  /** The case of the search text does not matter: searching for `sub` or for its lower-case
      form selects the same values. */
  lemma IgnoringCaseIsCaseBlind(s: string, sub: string)
    ensures ContainsIgnoringCase(s, sub) == ContainsIgnoringCase(s, Lower(sub))
    ensures ContainsIgnoringCase(s, sub) == ContainsIgnoringCase(Lower(s), sub)
  {
    LowerIdempotent(sub);
    LowerIdempotent(s);
  }
}
