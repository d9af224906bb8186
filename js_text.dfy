/** The JavaScript string and number built-ins the core relies on:
    `split` with a one-character separator, `Number` on the strings the
    form inputs produce, `String` of a non-negative integer, `padStart(2, "0")`,
    `slice(-2)`, `toLowerCase` (ASCII letters), `trim`, `replaceAll` and
    `replace` with one-character patterns. */
module JsText {

  /** A JavaScript number as the core uses it: an integer, or NaN. */
  datatype Num = Finite(value: int) | NaN

  // ---------------------------------------------------------------- split

  /** `s.split(sep)`: the pieces between separators, never an empty list. */
  function Split(s: string, sep: char): (parts: seq<string>)
    ensures |parts| >= 1
    ensures forall i :: 0 <= i < |parts| ==> sep !in parts[i]
    decreases |s|
  {
    if s == [] then [""]
    else
      var rest := Split(s[1..], sep);
      if s[0] == sep then [""] + rest
      else [[s[0]] + rest[0]] + rest[1..]
  }

  /** `parts.join(sep)`, the inverse of `Split`. */
  function Join(parts: seq<string>, sep: char): string
    requires |parts| >= 1
  {
    if |parts| == 1 then parts[0] else parts[0] + [sep] + Join(parts[1..], sep)
  }

  /** Splitting loses nothing: joining the pieces gives the string back. */
  lemma {:induction false} JoinSplit(s: string, sep: char)
    ensures Join(Split(s, sep), sep) == s
    decreases |s|
  {
    if s != [] {
      var rest := Split(s[1..], sep);
      JoinSplit(s[1..], sep);
      if s[0] == sep {
        assert Split(s, sep)[1..] == rest;
      } else if |rest| > 1 {
        assert Split(s, sep)[1..] == rest[1..];
        assert Join(rest, sep) == rest[0] + [sep] + Join(rest[1..], sep);
      }
    }
  }

  /** There is more than one piece exactly when the separator occurs. */
  lemma {:induction false} SplitCount(s: string, sep: char)
    ensures |Split(s, sep)| == 1 <==> sep !in s
    decreases |s|
  {
    if s != [] {
      SplitCount(s[1..], sep);
      assert sep in s <==> s[0] == sep || sep in s[1..];
    }
  }

  /** A string without the separator is one piece. */
  lemma {:induction false} SplitWhole(a: string, sep: char)
    requires sep !in a
    ensures Split(a, sep) == [a]
    decreases |a|
  {
    if a != [] {
      SplitWhole(a[1..], sep);
      assert [a[0]] + a[1..] == a;
    }
  }

  /** The first separator ends the first piece. */
  lemma {:induction false} SplitAtFirst(a: string, b: string, sep: char)
    requires sep !in a
    ensures Split(a + [sep] + b, sep) == [a] + Split(b, sep)
    decreases |a|
  {
    var s := a + [sep] + b;
    if a == [] {
      assert s[1..] == b;
    } else {
      assert s[1..] == a[1..] + [sep] + b;
      SplitAtFirst(a[1..], b, sep);
      assert [a[0]] + a[1..] == a;
    }
  }

  /** Two pieces around one separator. */
  lemma SplitTwo(a: string, b: string, sep: char)
    requires sep !in a && sep !in b
    ensures Split(a + [sep] + b, sep) == [a, b]
  {
    SplitWhole(b, sep);
    SplitAtFirst(a, b, sep);
  }

  /** Three pieces around two separators. */
  lemma SplitThree(a: string, b: string, c: string, sep: char)
    requires sep !in a && sep !in b && sep !in c
    ensures Split(a + [sep] + b + [sep] + c, sep) == [a, b, c]
  {
    var rest := b + [sep] + c;
    SplitTwo(b, c, sep);
    SplitAtFirst(a, rest, sep);
    assert a + [sep] + b + [sep] + c == a + [sep] + rest;
    assert [a] + [b, c] == [a, b, c];
  }

  // ---------------------------------------------------------------- digits

  predicate IsDigit(c: char)
  {
    '0' <= c <= '9'
  }

  predicate AllDigits(s: string)
  {
    forall i :: 0 <= i < |s| ==> IsDigit(s[i])
  }

  /** A digit string contains no character other than a digit. */
  lemma DigitsExclude(s: string, c: char)
    requires AllDigits(s) && !IsDigit(c)
    ensures c !in s
  {
    forall i | 0 <= i < |s|
      ensures s[i] != c
    {
    }
  }

  function Digit(d: nat): char
    requires d < 10
  {
    ('0' as int + d) as char
  }

  function DigitValue(c: char): nat
    requires IsDigit(c)
  {
    c as int - '0' as int
  }

  /** The decimal value of a digit string ("" reads as 0). */
  function DigitsValue(s: string): nat
    requires AllDigits(s)
  {
    if s == [] then 0 else DigitsValue(s[..|s| - 1]) * 10 + DigitValue(s[|s| - 1])
  }

  /** `Number(s)` for the strings date, time and number inputs produce:
      "" is 0, decimal digits are their value, a minus sign before digits
      negates it, anything else is NaN (a plus sign, fractions, exponents,
      hexadecimal and surrounding blanks are outside this model). */
  function ToNumber(s: string): (n: Num)
    ensures n.Finite? ==> s == [] || IsDigit(s[|s| - 1])
    ensures n.Finite? && n.value < 0 ==> |s| >= 2 && s[0] == '-'
    ensures s != [] && s[0] != '-' && !IsDigit(s[0]) ==> n.NaN?
  {
    if AllDigits(s) then Finite(DigitsValue(s))
    else if |s| >= 2 && s[0] == '-' && AllDigits(s[1..]) then Finite(-(DigitsValue(s[1..]) as int))
    else NaN
  }

  /** A digit string reads as its decimal value. */
  lemma ToNumberDigits(s: string)
    requires AllDigits(s)
    ensures ToNumber(s) == Finite(DigitsValue(s))
  {
  }

  /** Element `i` of `parts.map(Number)` in a destructuring: a missing
      element is undefined, which `Number` makes NaN. */
  function NumberAt(parts: seq<string>, i: nat): Num
  {
    if i < |parts| then ToNumber(parts[i]) else NaN
  }

  /** `n - 1` on a number; NaN stays NaN. */
  function Minus1(n: Num): Num
  {
    if n.NaN? then NaN else Finite(n.value - 1)
  }

  /** `String(n)` for a non-negative integer: decimal digits, no leading zero. */
  function DecimalString(n: nat): (s: string)
    ensures 1 <= |s| && AllDigits(s)
    ensures s[|s| - 1] == Digit(n % 10)
    ensures n >= 10 <==> |s| >= 2
    ensures n < 100 ==> |s| <= 2
  {
    if n < 10 then [Digit(n)] else DecimalString(n / 10) + [Digit(n % 10)]
  }

  /** `Number(String(n)) == n`. */
  lemma {:induction false} DecimalStringValue(n: nat)
    ensures DigitsValue(DecimalString(n)) == n
  {
    var s := DecimalString(n);
    if n >= 10 {
      assert s[..|s| - 1] == DecimalString(n / 10);
      DecimalStringValue(n / 10);
    }
  }

  /** `s.padStart(2, "0")`. */
  function PadStart2(s: string): (r: string)
    ensures |s| <= 2 ==> |r| == 2
    ensures |s| >= 2 ==> r == s
  {
    if |s| == 0 then "00" else if |s| == 1 then "0" + s else s
  }

  /** `s.slice(-2)`: the last two characters, or all of a shorter string. */
  function SliceLast2(s: string): (r: string)
    ensures |r| == if |s| <= 2 then |s| else 2
  {
    if |s| <= 2 then s else s[|s| - 2..]
  }

  /** A value below 100 pads to exactly its two decimal digits. */
  lemma TwoDigits(n: nat)
    requires n < 100
    ensures PadStart2(DecimalString(n)) == [Digit(n / 10), Digit(n % 10)]
  {
    if n >= 10 {
      assert DecimalString(n) == DecimalString(n / 10) + [Digit(n % 10)];
      assert DecimalString(n / 10) == [Digit(n / 10)];
    }
  }

  /** The last two characters of a number of at least two digits are its
      tens and units digits. */
  lemma LastTwoDigits(n: nat)
    requires n >= 10
    ensures SliceLast2(DecimalString(n)) == [Digit((n / 10) % 10), Digit(n % 10)]
  {
    var s := DecimalString(n);
    var t := DecimalString(n / 10);
    assert s == t + [Digit(n % 10)];
    assert t[|t| - 1] == Digit((n / 10) % 10);
  }

  // ---------------------------------------------------------------- case, blanks, replacing

  /** `toLowerCase` on one character; letters outside A-Z are kept. */
  function LowerChar(c: char): char
  {
    if 'A' <= c <= 'Z' then (c as int + 32) as char else c
  }

  function ToLower(s: string): (r: string)
  {
    seq(|s|, i requires 0 <= i < |s| => LowerChar(s[i]))
  }

  /** The characters `String.prototype.trim` removes. */
  predicate IsJsSpace(c: char)
  {
    c == ' ' || c == '\t' || c == '\n' || c == '\r' || c == '\U{000B}' || c == '\U{000C}'
    || c == '\U{00A0}' || c == '\U{1680}' || ('\U{2000}' <= c <= '\U{200A}')
    || c == '\U{2028}' || c == '\U{2029}' || c == '\U{202F}' || c == '\U{205F}'
    || c == '\U{3000}' || c == '\U{FEFF}'
  }

  function TrimStart(s: string): string
    decreases |s|
  {
    if s != [] && IsJsSpace(s[0]) then TrimStart(s[1..]) else s
  }

  function TrimEnd(s: string): string
    decreases |s|
  {
    if s != [] && IsJsSpace(s[|s| - 1]) then TrimEnd(s[..|s| - 1]) else s
  }

  /** `s.trim()`. */
  function Trim(s: string): string
  {
    TrimEnd(TrimStart(s))
  }

  /** `s.trim()` is truthy exactly when `s` has a character that is not
      white space. */
  lemma {:induction false} TrimEmptyIffBlank(s: string)
    ensures Trim(s) != "" <==> exists i :: 0 <= i < |s| && !IsJsSpace(s[i])
  {
    TrimStartBlank(s);
    TrimEndBlank(TrimStart(s));
  }

  lemma {:induction false} TrimStartBlank(s: string)
    ensures (TrimStart(s) != "" ==> !IsJsSpace(TrimStart(s)[0]))
    ensures (exists i :: 0 <= i < |TrimStart(s)| && !IsJsSpace(TrimStart(s)[i]))
        <==> (exists i :: 0 <= i < |s| && !IsJsSpace(s[i]))
    decreases |s|
  {
    if s != [] && IsJsSpace(s[0]) {
      TrimStartBlank(s[1..]);
      var t := s[1..];
      if exists i :: 0 <= i < |s| && !IsJsSpace(s[i]) {
        var i :| 0 <= i < |s| && !IsJsSpace(s[i]);
        assert t[i - 1] == s[i];
      }
      if exists i :: 0 <= i < |t| && !IsJsSpace(t[i]) {
        var i :| 0 <= i < |t| && !IsJsSpace(t[i]);
        assert s[i + 1] == t[i];
      }
    }
  }

  lemma {:induction false} TrimEndBlank(s: string)
    requires s != [] ==> !IsJsSpace(s[0])
    ensures TrimEnd(s) != "" <==> s != []
    decreases |s|
  {
    if s != [] && IsJsSpace(s[|s| - 1]) {
      assert |s| >= 2;
      TrimEndBlank(s[..|s| - 1]);
    }
  }

  /** `s.replaceAll(from, to)` for one-character strings. */
  function ReplaceAll(s: string, from: char, to: char): string
  {
    seq(|s|, i requires 0 <= i < |s| => if s[i] == from then to else s[i])
  }

  /** `s.indexOf(c)`: the first position of `c`, or -1. */
  function IndexOf(s: string, c: char): (i: int)
    ensures -1 <= i < |s|
    ensures i == -1 <==> c !in s
    ensures 0 <= i ==> s[i] == c && c !in s[..i]
  {
    if s == [] then -1
    else if s[0] == c then 0
    else
      var j := IndexOf(s[1..], c);
      if j < 0 then -1 else j + 1
  }

  /** The first occurrence is the only position holding `c` with no `c`
      before it. */
  lemma IndexOfAt(s: string, c: char, j: nat)
    requires j < |s| && s[j] == c && c !in s[..j]
    ensures IndexOf(s, c) == j
  {
  }

  /** Replacing other characters does not move the first `c`. */
  lemma IndexOfReplaceAll(s: string, from: char, to: char, c: char)
    requires c != from && c != to
    ensures IndexOf(ReplaceAll(s, from, to), c) == IndexOf(s, c)
  {
    var t := ReplaceAll(s, from, to);
    var i := IndexOf(s, c);
    if i >= 0 {
      assert c !in t[..i] by {
        forall k | 0 <= k < i ensures t[..i][k] != c {
          assert s[..i][k] == s[k];
        }
      }
      IndexOfAt(t, c, i);
    } else {
      assert c !in t by {
        forall k | 0 <= k < |t| ensures t[k] != c {
          assert s[k] != c;
        }
      }
    }
  }

  /** `s.replace(from, to)` for one-character strings: only the first
      occurrence is replaced. */
  function ReplaceFirst(s: string, from: char, to: char): string
  {
    var i := IndexOf(s, from);
    if i < 0 then s else s[i := to]
  }
}
