/** String helpers shared by both checkers: Python's `in` on strings,
    `str.strip()`, ASCII case folding, decimal conversion and the word-character
    test behind the regular-expression `\b`. */
module Text {

  datatype Option<T> = None | Some(value: T)

  /** `sub` occurs in `s` starting at index `i`. */
  predicate OccursAt(s: string, sub: string, i: int)
  {
    0 <= i && i + |sub| <= |s| && s[i..i + |sub|] == sub
  }

  /** Python's `sub in s`. */
  predicate Contains(s: string, sub: string)
    decreases |s|
  {
    sub <= s || (|s| > 0 && Contains(s[1..], sub))
  }

  lemma {:induction false} ContainsIff(s: string, sub: string)
    ensures Contains(s, sub) <==> exists i :: OccursAt(s, sub, i)
    decreases |s|
  {
    if sub <= s {
      assert OccursAt(s, sub, 0);
    } else if |s| > 0 {
      ContainsIff(s[1..], sub);
      forall i | OccursAt(s[1..], sub, i) ensures OccursAt(s, sub, i + 1) {
        assert s[1..][i..i + |sub|] == s[i + 1..i + 1 + |sub|];
      }
      forall i | OccursAt(s, sub, i) ensures OccursAt(s[1..], sub, i - 1) {
        assert s[1..][i - 1..i - 1 + |sub|] == s[i..i + |sub|];
      }
    }
  }

  /** Python's `any(m in s for m in marks)`. */
  predicate HasAny(s: string, marks: seq<string>)
  {
    exists k :: 0 <= k < |marks| && Contains(s, marks[k])
  }

  /** The characters `str.isspace()` accepts, which `str.strip()` removes. */
  predicate IsSpace(c: char)
  {
    c == ' ' || ('\t' <= c <= '\r') || ('\U{1C}' <= c <= '\U{1F}')
    || c == '\U{85}' || c == '\U{A0}' || c == '\U{1680}'
    || ('\U{2000}' <= c <= '\U{200A}') || c == '\U{2028}' || c == '\U{2029}'
    || c == '\U{202F}' || c == '\U{205F}' || c == '\U{3000}'
  }

  /** `s.lstrip()`. */
  function StripLeft(s: string): string
  {
    if |s| > 0 && IsSpace(s[0]) then StripLeft(s[1..]) else s
  }

  /** `s.rstrip()`. */
  function StripRight(s: string): string
  {
    if |s| > 0 && IsSpace(s[|s| - 1]) then StripRight(s[..|s| - 1]) else s
  }

  /** `s.strip()`. */
  function Strip(s: string): string
  {
    StripRight(StripLeft(s))
  }

  /** `lstrip` removes the longest run of white space at the front. */
  lemma {:induction false} StripLeftMeaning(s: string)
    ensures var r := StripLeft(s);
            && |r| <= |s| && r == s[|s| - |r|..]
            && (forall i :: 0 <= i < |s| - |r| ==> IsSpace(s[i]))
            && (|r| > 0 ==> !IsSpace(r[0]))
  {
    if |s| > 0 && IsSpace(s[0]) {
      StripLeftMeaning(s[1..]);
    }
  }

  /** `rstrip` removes the longest run of white space at the back. */
  lemma {:induction false} StripRightMeaning(s: string)
    ensures var r := StripRight(s);
            && |r| <= |s| && r == s[..|r|]
            && (forall i :: |r| <= i < |s| ==> IsSpace(s[i]))
            && (|r| > 0 ==> !IsSpace(r[|r| - 1]))
  {
    if |s| > 0 && IsSpace(s[|s| - 1]) {
      StripRightMeaning(s[..|s| - 1]);
    }
  }

  function LowerChar(c: char): char
  {
    if 'A' <= c <= 'Z' then (c as int + 32) as char else c
  }

  /** `s.lower()` restricted to the ASCII letters. */
  function AsciiLower(s: string): (r: string)
    ensures |r| == |s|
    ensures forall i :: 0 <= i < |s| ==> r[i] == LowerChar(s[i])
  {
    if s == [] then [] else [LowerChar(s[0])] + AsciiLower(s[1..])
  }

  predicate IsDigit(c: char)
  {
    '0' <= c <= '9'
  }

  predicate AllDigits(s: string)
  {
    forall i :: 0 <= i < |s| ==> IsDigit(s[i])
  }

  /** The value of a string of decimal digits, as Python's `int` gives it. */
  function DecimalValue(s: string): nat
    requires AllDigits(s)
  {
    if s == [] then 0 else DecimalValue(s[..|s| - 1]) * 10 + (s[|s| - 1] as int - '0' as int)
  }

  function DigitChar(d: nat): char
    requires d < 10
  {
    ('0' as int + d) as char
  }

  /** `str(n)` for a natural number: its decimal digits, without leading zeros. */
  function NatToString(n: nat): string
  {
    if n < 10 then [DigitChar(n)] else NatToString(n / 10) + [DigitChar(n % 10)]
  }

  lemma {:induction false} NatToStringDecimal(n: nat)
    ensures |NatToString(n)| > 0 && AllDigits(NatToString(n))
    ensures DecimalValue(NatToString(n)) == n
    ensures NatToString(n)[0] == '0' ==> n == 0
  {
    if n >= 10 {
      NatToStringDecimal(n / 10);
      var s := NatToString(n);
      assert s[..|s| - 1] == NatToString(n / 10);
    }
  }

  lemma {:induction false} DecimalAtLeastLead(s: string)
    requires |s| > 0 && AllDigits(s)
    ensures DecimalValue(s) >= s[0] as int - '0' as int
  {
    if |s| > 1 {
      DecimalAtLeastLead(s[..|s| - 1]);
    }
  }

  /** A leading zero does not change the value. */
  lemma {:induction false} DecimalLeadingZero(s: string)
    requires |s| > 0 && AllDigits(s) && s[0] == '0'
    ensures DecimalValue(s) == DecimalValue(s[1..])
  {
    if |s| > 1 {
      DecimalLeadingZero(s[..|s| - 1]);
      assert s[..|s| - 1][1..] == s[1..][..|s[1..]| - 1];
    }
  }

  /** A digit string without a leading zero is what `str` writes for its value. */
  lemma {:induction false} CanonicalDecimal(s: string)
    requires |s| > 0 && AllDigits(s) && (s[0] != '0' || |s| == 1)
    ensures NatToString(DecimalValue(s)) == s
  {
    var p := s[..|s| - 1];
    if |s| > 1 {
      CanonicalDecimal(p);
      DecimalAtLeastLead(p);
      var n := DecimalValue(s);
      assert n / 10 == DecimalValue(p) && n % 10 == s[|s| - 1] as int - '0' as int;
      assert s == p + [s[|s| - 1]];
    }
  }

  /** `s.lstrip("0")`. */
  function DropZeros(s: string): (r: string)
    ensures |r| <= |s| && r == s[|s| - |r|..]
    ensures forall i :: 0 <= i < |s| - |r| ==> s[i] == '0'
    ensures |r| > 0 ==> r[0] != '0'
  {
    if |s| > 0 && s[0] == '0' then DropZeros(s[1..]) else s
  }

  /** `s.replace(a, b)` for single characters. */
  function ReplaceChar(s: string, a: char, b: char): (r: string)
    ensures |r| == |s|
    ensures forall i :: 0 <= i < |s| ==> r[i] == if s[i] == a then b else s[i]
  {
    if s == [] then [] else [if s[0] == a then b else s[0]] + ReplaceChar(s[1..], a, b)
  }

  /** The part of `s` before its first `sep`: `s.split(sep)[0]`. */
  function FirstField(s: string, sep: char): (r: string)
    ensures r <= s && sep !in r
    ensures |r| < |s| ==> s[|r|] == sep
  {
    if s == [] || s[0] == sep then [] else [s[0]] + FirstField(s[1..], sep)
  }

  /** Characters the regular-expression class `\w` accepts, approximated by
      the ASCII letters, digits and underscore, the Latin-1 letters, the kana,
      the common CJK ideographs and the full-width letters and digits. */
  predicate IsWordChar(c: char)
  {
    ('a' <= c <= 'z') || ('A' <= c <= 'Z') || IsDigit(c) || c == '_'
    || c == 'ª' || c == 'µ' || c == 'º'
    || ('À' <= c <= 'ÿ' && c != '×' && c != '÷')
    || c == '々' || c == '〇'
    || ('ぁ' <= c <= 'ゖ') || ('ゝ' <= c <= 'ゟ')
    || ('ァ' <= c <= 'ヺ') || ('ー' <= c <= 'ヿ')
    || ('㐀' <= c <= '䶿') || ('一' <= c <= '鿿')
    || ('０' <= c <= '９') || ('Ａ' <= c <= 'Ｚ') || ('ａ' <= c <= 'ｚ')
    || ('ｦ' <= c <= 'ﾟ')
  }

  /** `\b` holds between index `i - 1` and index `i` of `s`. */
  predicate BoundaryAt(s: string, i: int)
    requires 0 <= i <= |s|
  {
    (i > 0 && IsWordChar(s[i - 1])) != (i < |s| && IsWordChar(s[i]))
  }

  /** An occurrence of `w` at index `i` with a word boundary on either side. */
  predicate TokenAt(s: string, w: string, i: int)
  {
    OccursAt(s, w, i) && BoundaryAt(s, i) && BoundaryAt(s, i + |w|)
  }

  /** `re.search(r"\b" + w + r"\b", s)` for a pattern `w` without special
      characters. */
  predicate HasToken(s: string, w: string)
  {
    exists i :: 0 <= i <= |s| && TokenAt(s, w, i)
  }
}
