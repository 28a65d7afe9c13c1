/**
 * String helpers the task manager relies on through Rust's standard library:
 * decimal formatting of integers, `str::split`, `slice::join`, `str::contains`
 * and the lexicographic ordering of `String`.
 */
module Text {

  // ---------------------------------------------------------------------
  // Decimal digits
  // ---------------------------------------------------------------------

  predicate IsDigit(c: char) {
    '0' <= c <= '9'
  }

  predicate AllDigits(s: string) {
    forall i :: 0 <= i < |s| ==> IsDigit(s[i])
  }

  function DigitChar(n: nat): (c: char)
    requires n < 10
    ensures IsDigit(c)
  {
    (n + '0' as int) as char
  }

  function DigitValue(c: char): (n: nat)
    requires IsDigit(c)
    ensures n < 10 && DigitChar(n) == c
  {
    c as int - '0' as int
  }

  function Pow10(k: nat): (p: nat)
    ensures p >= 1
  {
    if k == 0 then 1 else 10 * Pow10(k - 1)
  }

  /** The last `width` decimal digits of `n`, zero-padded on the left. */
  function FixedDigits(n: nat, width: nat): (s: string)
    ensures |s| == width && AllDigits(s)
  {
    if width == 0 then "" else FixedDigits(n / 10, width - 1) + [DigitChar(n % 10)]
  }

  /** The number a string of decimal digits denotes (leading zeros allowed). */
  function DigitsValue(s: string): nat
    requires AllDigits(s)
  {
    if s == "" then 0 else DigitsValue(s[..|s| - 1]) * 10 + DigitValue(s[|s| - 1])
  }

  lemma {:induction false} DigitsValueBound(s: string)
    requires AllDigits(s)
    ensures DigitsValue(s) < Pow10(|s|)
  {
    if s != "" {
      DigitsValueBound(s[..|s| - 1]);
    }
  }

  /** Reading back a zero-padded number gives the number, when it fits the width. */
  lemma {:induction false} ValueOfFixedDigits(n: nat, width: nat)
    requires n < Pow10(width)
    ensures DigitsValue(FixedDigits(n, width)) == n
  {
    if width > 0 {
      var s := FixedDigits(n, width);
      assert s[..|s| - 1] == FixedDigits(n / 10, width - 1);
      ValueOfFixedDigits(n / 10, width - 1);
    }
  }

  /** Writing back the value of a digit string at its own width gives the string. */
  lemma {:induction false} FixedDigitsOfValue(s: string)
    requires AllDigits(s)
    ensures FixedDigits(DigitsValue(s), |s|) == s
  {
    if s != "" {
      var init := s[..|s| - 1];
      var v := DigitsValue(s);
      assert v / 10 == DigitsValue(init) && v % 10 == DigitValue(s[|s| - 1]);
      FixedDigitsOfValue(init);
      assert s == init + [s[|s| - 1]];
    }
  }

  lemma FixedDigitsInjective(a: nat, b: nat, width: nat)
    requires a < Pow10(width) && b < Pow10(width)
    requires FixedDigits(a, width) == FixedDigits(b, width)
    ensures a == b
  {
    ValueOfFixedDigits(a, width);
    ValueOfFixedDigits(b, width);
  }

  /** The number of digits in the shortest decimal form of `n`. */
  /** The number of digits of `n` written without leading zeros. */
  function NumDigits(n: nat): (k: nat)
    ensures 1 <= k && n < Pow10(k)
    ensures k == 1 || Pow10(k - 1) <= n
  {
    if n < 10 then 1 else 1 + NumDigits(n / 10)
  }

  /** A number that needs all `width` digits starts with a non-zero digit. */
  lemma {:induction false} LeadingDigitNonZero(n: nat, width: nat)
    requires 1 <= width && Pow10(width - 1) <= n < Pow10(width)
    ensures FixedDigits(n, width)[0] != '0'
  {
    if width == 1 {
      assert FixedDigits(n, 1) == [DigitChar(n % 10)];
    } else {
      var s := FixedDigits(n, width);
      assert s == FixedDigits(n / 10, width - 1) + [DigitChar(n % 10)];
      LeadingDigitNonZero(n / 10, width - 1);
    }
  }

  /** `n.to_string()` for an unsigned integer: its shortest decimal form. */
  function Decimal(n: nat): (s: string)
    ensures |s| == NumDigits(n) && AllDigits(s)
    ensures DigitsValue(s) == n
    ensures s[0] == '0' ==> s == "0"
  {
    ValueOfFixedDigits(n, NumDigits(n));
    if NumDigits(n) > 1 then
      LeadingDigitNonZero(n, NumDigits(n));
      FixedDigits(n, NumDigits(n))
    else
      assert FixedDigits(n, 1) == [DigitChar(n)];
      FixedDigits(n, 1)
  }

  // ---------------------------------------------------------------------
  // Splitting and joining (Rust's `str::split(char)` and `[String]::join`)
  // ---------------------------------------------------------------------

  /** `parts.join(sep)`. */
  function Join(parts: seq<string>, sep: string): string {
    if |parts| == 0 then ""
    else if |parts| == 1 then parts[0]
    else parts[0] + sep + Join(parts[1..], sep)
  }

  /**
   * A join is as long as its parts and the separators between them, opens
   * with the first part, and ends with the last.
   */
  lemma {:induction false} JoinShape(parts: seq<string>, sep: string)
    requires |parts| >= 1
    ensures parts[0] <= Join(parts, sep)
    ensures |parts| >= 2 ==> parts[0] + sep <= Join(parts, sep)
    ensures |Join(parts, sep)| >= |parts[|parts| - 1]|
    ensures Join(parts, sep)[|Join(parts, sep)| - |parts[|parts| - 1]|..] == parts[|parts| - 1]
  {
    if |parts| >= 2 {
      JoinShape(parts[1..], sep);
    }
  }

  /**
   * `s.split(sep)`: the pieces between occurrences of `sep`. As in Rust, the
   * empty string splits into one empty piece and a trailing separator leaves a
   * trailing empty piece.
   */
  function Split(s: string, sep: char): (parts: seq<string>)
    ensures |parts| >= 1
    ensures forall k :: 0 <= k < |parts| ==> sep !in parts[k]
  {
    if s == "" then [""]
    else
      var rest := Split(s[1..], sep);
      if s[0] == sep then [""] + rest
      else [[s[0]] + rest[0]] + rest[1..]
  }

  /** Joining the pieces of a split with the separator gives back the string. */
  lemma {:induction false} JoinSplit(s: string, sep: char)
    ensures Join(Split(s, sep), [sep]) == s
  {
    if s != "" {
      var rest := Split(s[1..], sep);
      JoinSplit(s[1..], sep);
      if s[0] != sep {
        if |rest| == 1 {
          assert Join(Split(s, sep), [sep]) == [s[0]] + rest[0];
        } else {
          assert Split(s, sep)[1..] == rest[1..];
          assert Join(rest, [sep]) == rest[0] + [sep] + Join(rest[1..], [sep]);
        }
      }
    }
  }

  /** Splitting the join of separator-free pieces gives back the pieces. */
  lemma {:induction false} SplitJoin(parts: seq<string>, sep: char)
    requires |parts| >= 1
    requires forall k :: 0 <= k < |parts| ==> sep !in parts[k]
    ensures Split(Join(parts, [sep]), sep) == parts
    decreases |parts|, |parts[0]|
  {
    var p := parts[0];
    if p == "" {
      if |parts| > 1 {
        SplitJoin(parts[1..], sep);
        assert Join(parts, [sep]) == [sep] + Join(parts[1..], [sep]);
      }
    } else {
      var tail := [p[1..]] + parts[1..];
      assert tail[1..] == parts[1..];
      SplitJoin(tail, sep);
      var s := Join(parts, [sep]);
      assert s == [p[0]] + Join(tail, [sep]) by {
        if |parts| > 1 {
          assert s == p + [sep] + Join(parts[1..], [sep]);
          assert [p[0]] + p[1..] == p;
        }
      }
      assert Split(s, sep) == [[p[0]] + p[1..]] + parts[1..] by {
        assert s[0] == p[0] && s[1..] == Join(tail, [sep]);
      }
      assert [p[0]] + p[1..] == p;
      assert [p] + parts[1..] == parts;
    }
  }

  // ---------------------------------------------------------------------
  // Substrings (Rust's `str::contains(&str)`, case-sensitive)
  // ---------------------------------------------------------------------

  /** `hay.contains(needle)`: `needle` occurs somewhere in `hay`. */
  predicate Contains(hay: string, needle: string)
    ensures needle <= hay ==> Contains(hay, needle)
    ensures Contains(hay, needle) ==> |needle| <= |hay|
  {
    needle <= hay || (hay != "" && Contains(hay[1..], needle))
  }

  predicate OccursAt(hay: string, needle: string, i: int)
  {
    0 <= i && i + |needle| <= |hay| && hay[i..i + |needle|] == needle
  }

  /** `Contains` holds exactly when the needle occurs at some position. */
  lemma {:induction false} ContainsIffOccurs(hay: string, needle: string)
    ensures Contains(hay, needle) <==> exists i :: OccursAt(hay, needle, i)
  {
    if needle <= hay {
      assert OccursAt(hay, needle, 0);
    } else if hay == "" {
    } else {
      ContainsIffOccurs(hay[1..], needle);
      if i :| OccursAt(hay[1..], needle, i) {
        OccursInTail(hay, needle, i + 1);
        assert OccursAt(hay, needle, i + 1);
      }
      if i :| OccursAt(hay, needle, i) {
        assert i != 0;
        OccursInTail(hay, needle, i);
        assert OccursAt(hay[1..], needle, i - 1);
      }
    }
  }

  /** An occurrence past the first character is an occurrence in the tail. */
  lemma OccursInTail(hay: string, needle: string, i: int)
    requires hay != "" && 1 <= i
    ensures OccursAt(hay, needle, i) <==> OccursAt(hay[1..], needle, i - 1)
  {
    if i + |needle| <= |hay| {
      assert hay[1..][i - 1..i - 1 + |needle|] == hay[i..i + |needle|];
    }
  }

  // ---------------------------------------------------------------------
  // Lexicographic order (Rust's `Ord for String`)
  // ---------------------------------------------------------------------

  /**
   * `a < b` for Rust strings: byte-wise lexicographic order, which on UTF-8 is
   * the lexicographic order of code points.
   */
  predicate LexLess(a: string, b: string)
    ensures LexLess(a, b) ==> a != b
    ensures a < b ==> LexLess(a, b)
  {
    if a == "" then b != ""
    else if b == "" then false
    else a[0] < b[0] || (a[0] == b[0] && LexLess(a[1..], b[1..]))
  }

  lemma {:induction false} LexLessIrreflexive(a: string)
    ensures !LexLess(a, a)
  {
    if a != "" {
      LexLessIrreflexive(a[1..]);
    }
  }

  lemma {:induction false} LexLessAsymmetric(a: string, b: string)
    requires LexLess(a, b)
    ensures !LexLess(b, a)
  {
    if a != "" && b != "" && a[0] == b[0] {
      LexLessAsymmetric(a[1..], b[1..]);
    }
  }

  lemma {:induction false} LexLessTransitive(a: string, b: string, c: string)
    requires LexLess(a, b) && LexLess(b, c)
    ensures LexLess(a, c)
  {
    if a != "" && a[0] == b[0] && b[0] == c[0] {
      LexLessTransitive(a[1..], b[1..], c[1..]);
    }
  }

  /** Any two different strings are ordered one way or the other. */
  lemma {:induction false} LexLessTotal(a: string, b: string)
    requires a != b
    ensures LexLess(a, b) || LexLess(b, a)
  {
    if a != "" && b != "" && a[0] == b[0] {
      assert a == [a[0]] + a[1..] && b == [b[0]] + b[1..];
      LexLessTotal(a[1..], b[1..]);
    }
  }
}
