/**
 The two pieces of text handling the script does itself: cutting the geocoder's
 address at its first comma (`address.split(',')[0]`) and printing a non-negative
 number the way JavaScript's `String(n)` does, together with the parsers that read
 such text back, so that each printer is shown to lose nothing.
 */
module Text {

  import opened Wrappers

  /* ---------------------------------------------------------------------------
     Splitting on a separator
     --------------------------------------------------------------------------- */

  /** `s.split(sep)` for a one-character separator: the maximal pieces between separators. */
  function Split(s: string, sep: char): (parts: seq<string>)
    ensures |parts| >= 1
    ensures forall i, k :: 0 <= i < |parts| && 0 <= k < |parts[i]| ==> parts[i][k] != sep
    ensures |parts| - 1 == CountOf(s, sep)
  {
    if s == [] then [[]]
    else
      var rest := Split(s[1..], sep);
      if s[0] == sep then [[]] + rest
      else [[s[0]] + rest[0]] + rest[1..]
  }

  /** Number of occurrences of `c` in `s`. */
  function CountOf(s: string, c: char): nat
  {
    if s == [] then 0 else (if s[0] == c then 1 else 0) + CountOf(s[1..], c)
  }

  /** `parts.join(sep)`. */
  function Join(parts: seq<string>, sep: char): string
    requires |parts| >= 1
  {
    if |parts| == 1 then parts[0] else parts[0] + [sep] + Join(parts[1..], sep)
  }

  /** Splitting loses nothing: joining the pieces back gives the original text. */
  lemma {:induction false} JoinSplit(s: string, sep: char)
    ensures Join(Split(s, sep), sep) == s
  {
    if s != [] {
      var rest := Split(s[1..], sep);
      JoinSplit(s[1..], sep);
      if s[0] == sep {
        assert Split(s, sep)[1..] == rest;
      } else {
        var parts := Split(s, sep);
        if |rest| == 1 {
          assert parts == [[s[0]] + rest[0]];
        } else {
          assert parts[1..] == rest[1..];
          assert Join(rest, sep) == rest[0] + [sep] + Join(rest[1..], sep);
        }
      }
    }
  }

  /** `s.split(',')[0]`: the text the results panel shows as the searched location. */
  function FirstField(s: string): string
  {
    Split(s, ',')[0]
  }

  /**
   The first field is the longest prefix of the address without a comma: it is a
   prefix, it holds no comma, and it is either the whole address or is followed by one.
   */
  lemma {:induction false} FirstFieldIsPrefixBeforeComma(s: string)
    ensures |FirstField(s)| <= |s|
    ensures FirstField(s) == s[..|FirstField(s)|]
    ensures forall k :: 0 <= k < |FirstField(s)| ==> s[k] != ','
    ensures |FirstField(s)| < |s| ==> s[|FirstField(s)|] == ','
  {
    if s != [] && s[0] != ',' {
      FirstFieldIsPrefixBeforeComma(s[1..]);
      assert FirstField(s) == [s[0]] + FirstField(s[1..]);
    }
  }

  /* ---------------------------------------------------------------------------
     Decimal numerals
     --------------------------------------------------------------------------- */

  function DigitChar(d: nat): (c: char)
    requires d < 10
  {
    "0123456789"[d]
  }

  predicate IsDigit(c: char)
  {
    '0' <= c <= '9'
  }

  function DigitValue(c: char): (d: nat)
    requires IsDigit(c)
    ensures d < 10
  {
    (c as int - '0' as int) as nat
  }

  lemma DigitValueOfDigitChar(d: nat)
    requires d < 10
    ensures IsDigit(DigitChar(d)) && DigitValue(DigitChar(d)) == d
  {
  }

  predicate AllDigits(s: string)
  {
    forall k :: 0 <= k < |s| ==> IsDigit(s[k])
  }

  /** `String(n)` for a non-negative integer: its decimal digits, no leading zeros. */
  function NatText(n: nat): string
  {
    if n < 10 then [DigitChar(n)] else NatText(n / 10) + [DigitChar(n % 10)]
  }

  /** The value of a string of decimal digits (most significant first). */
  function DigitsValue(s: string): nat
    requires AllDigits(s)
  {
    if s == [] then 0 else DigitsValue(s[..|s| - 1]) * 10 + DigitValue(s[|s| - 1])
  }

  /** A digit string in the form `String` prints: non-empty, and no leading zero unless it is `0` itself. */
  predicate CanonicalDigits(s: string)
  {
    |s| >= 1 && AllDigits(s) && (s[0] == '0' ==> |s| == 1)
  }

  /** `NatText` prints a canonical digit string, starting with `0` only for zero, whose value is the number printed. */
  lemma {:induction false} NatTextRoundTrip(n: nat)
    ensures |NatText(n)| >= 1
    ensures AllDigits(NatText(n))
    ensures DigitsValue(NatText(n)) == n
    ensures NatText(n)[0] == '0' <==> n == 0
    ensures CanonicalDigits(NatText(n))
  {
    DigitValueOfDigitChar(n % 10);
    if n >= 10 {
      NatTextRoundTrip(n / 10);
      var s := NatText(n);
      assert s[..|s| - 1] == NatText(n / 10);
      assert s[0] == NatText(n / 10)[0];
    }
  }

  /** `String(t / 10)` for a number of tenths `t`: integer part, then `.d` only when the tenth is not zero. */
  function TenthsText(t: nat): string
  {
    NatText(t / 10) + (if t % 10 == 0 then "" else "." + [DigitChar(t % 10)])
  }

  /**
   Reads a numeral in the form `String` prints for a number of tenths: a canonical
   integer part, optionally followed by `.` and one non-zero digit. Any other form,
   such as `02` or `2.0`, is rejected.
   */
  function ParseTenths(s: string): Option<nat>
  {
    if |s| >= 3 && s[|s| - 2] == '.' && CanonicalDigits(s[..|s| - 2]) && IsDigit(s[|s| - 1]) && s[|s| - 1] != '0' then
      Some(DigitsValue(s[..|s| - 2]) * 10 + DigitValue(s[|s| - 1]))
    else if CanonicalDigits(s) then
      Some(DigitsValue(s) * 10)
    else
      None
  }

  /**
   The printed number of tenths is in the form `String` prints and reads back as the
   same number: no `.` for a whole number, and never a trailing zero after the `.`.
   */
  lemma {:induction false} TenthsTextRoundTrip(t: nat)
    ensures |TenthsText(t)| >= 1
    ensures ParseTenths(TenthsText(t)) == Some(t)
    ensures t % 10 == 0 ==> forall k :: 0 <= k < |TenthsText(t)| ==> TenthsText(t)[k] != '.'
    ensures t % 10 != 0 ==> TenthsText(t)[|TenthsText(t)| - 1] != '0'
  {
    NatTextRoundTrip(t / 10);
    DigitValueOfDigitChar(t % 10);
    if t % 10 == 0 {
      WholeTenths(t);
    } else {
      FractionalTenths(t);
    }
  }

  lemma WholeTenths(t: nat)
    requires t % 10 == 0
    requires CanonicalDigits(NatText(t / 10)) && DigitsValue(NatText(t / 10)) == t / 10
    ensures ParseTenths(TenthsText(t)) == Some(t)
    ensures forall k :: 0 <= k < |TenthsText(t)| ==> TenthsText(t)[k] != '.'
  {
    assert TenthsText(t) == NatText(t / 10);
  }

  lemma FractionalTenths(t: nat)
    requires t % 10 != 0
    requires CanonicalDigits(NatText(t / 10)) && DigitsValue(NatText(t / 10)) == t / 10
    requires IsDigit(DigitChar(t % 10)) && DigitValue(DigitChar(t % 10)) == t % 10
    ensures ParseTenths(TenthsText(t)) == Some(t)
    ensures TenthsText(t)[|TenthsText(t)| - 1] != '0'
  {
    var w, d := NatText(t / 10), DigitChar(t % 10);
    FractionText(t);
    ParseFraction(w, d);
    Recompose(DigitsValue(w), DigitValue(d), t);
  }

  /** With a non-zero tenth, the printed form is the integer part, `.`, and that digit. */
  lemma FractionText(t: nat)
    requires t % 10 != 0
    ensures DigitChar(t % 10) != '0'
    ensures TenthsText(t) == NatText(t / 10) + ['.', DigitChar(t % 10)]
  {
  }

  /** Whole part and tenth digit put back together give the number of tenths. */
  lemma Recompose(whole: nat, tenth: nat, t: nat)
    requires whole == t / 10 && tenth == t % 10
    ensures whole * 10 + tenth == t
  {
  }

  /** A canonical integer part, `.`, and a non-zero digit parse as that many tenths. */
  lemma ParseFraction(w: string, d: char)
    requires CanonicalDigits(w) && IsDigit(d) && d != '0'
    ensures ParseTenths(w + ['.', d]) == Some(DigitsValue(w) * 10 + DigitValue(d))
  {
    var s := w + ['.', d];
    assert s[..|s| - 2] == w;
    assert s[|s| - 2] == '.' && s[|s| - 1] == d;
  }


}
