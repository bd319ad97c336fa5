/** The few Kotlin string operations the betting board relies on:
    `split` with one delimiter, `last`, `equals(ignoreCase = true)` and
    `Int.toString()`. */
module Text {

  datatype Option<T> = None | Some(value: T)

  // ---------------------------------------------------------------------
  // split / last
  // ---------------------------------------------------------------------

  /** Kotlin's `s.split(sep)` for a single non-empty delimiter and no limit:
      the delimiter is searched from the left, matches do not overlap, and
      every part is kept, empty ones (leading, inner, trailing) included.
      Splitting the empty string gives one empty part. */
  function Split(s: string, sep: string): (parts: seq<string>)
    requires sep != []
    ensures parts != []
    decreases |s|
  {
    if |s| < |sep| then [s]
    else if s[..|sep|] == sep then [""] + Split(s[|sep|..], sep)
    else
      var rest := Split(s[1..], sep);
      [[s[0]] + rest[0]] + rest[1..]
  }

  /** The reverse of `Split`: the parts glued back with the delimiter. */
  function Join(parts: seq<string>, sep: string): string
    requires parts != []
    decreases |parts|
  {
    if |parts| == 1 then parts[0] else parts[0] + sep + Join(parts[1..], sep)
  }

  /** Kotlin's `List.last()` on a list that is never empty here. */
  function Last(parts: seq<string>): string
    requires parts != []
  {
    parts[|parts| - 1]
  }

  /** Splitting loses nothing: the parts joined with the delimiter give back
      the original string. */
  lemma {:induction false} JoinSplit(s: string, sep: string)
    requires sep != []
    ensures Join(Split(s, sep), sep) == s
    decreases |s|
  {
    if |s| < |sep| {
    } else if s[..|sep|] == sep {
      JoinSplit(s[|sep|..], sep);
      var rest := Split(s[|sep|..], sep);
      assert Split(s, sep) == [""] + rest;
      assert ([""] + rest)[1..] == rest;
      assert s == s[..|sep|] + s[|sep|..];
    } else {
      JoinSplit(s[1..], sep);
      var rest := Split(s[1..], sep);
      var parts := [[s[0]] + rest[0]] + rest[1..];
      assert Split(s, sep) == parts;
      if |rest| == 1 {
        assert Join(parts, sep) == [s[0]] + rest[0];
      } else {
        assert parts[1..] == rest[1..];
        assert Join(parts, sep) == [s[0]] + (rest[0] + sep + Join(rest[1..], sep));
      }
      assert s == [s[0]] + s[1..];
    }
  }

  /** A string in which the delimiter's first character never occurs is not
      split at all. */
  lemma {:induction false} SplitWithout(a: string, sep: string)
    requires sep != [] && sep[0] !in a
    ensures Split(a, sep) == [a]
    decreases |a|
  {
    if |a| >= |sep| {
      assert a[..|sep|][0] == a[0] != sep[0];
      assert sep[0] !in a[1..] by {
        forall i | 0 <= i < |a[1..]| ensures a[1..][i] != sep[0] {
          assert a[1..][i] == a[i + 1];
        }
      }
      SplitWithout(a[1..], sep);
      assert [a[0]] + a[1..] == a;
    }
  }

  /** When the first part contains no character that could start the delimiter,
      the split stops at the first delimiter and the rest is split
      independently. */
  lemma {:induction false} SplitAt(a: string, sep: string, b: string)
    requires sep != [] && sep[0] !in a
    ensures Split(a + sep + b, sep) == [a] + Split(b, sep)
    decreases |a|
  {
    var s := a + sep + b;
    if a == [] {
      assert s == sep + b;
      assert s[..|sep|] == sep;
      assert s[|sep|..] == b;
    } else {
      assert s[..|sep|][0] == a[0] != sep[0];
      assert sep[0] !in a[1..] by {
        forall i | 0 <= i < |a[1..]| ensures a[1..][i] != sep[0] {
          assert a[1..][i] == a[i + 1];
        }
      }
      SplitAt(a[1..], sep, b);
      assert s[1..] == a[1..] + sep + b;
      assert [a[0]] + a[1..] == a;
    }
  }

  // ---------------------------------------------------------------------
  // equals(other, ignoreCase = true)
  // ---------------------------------------------------------------------

  function UpperCase(c: char): char
  {
    if 'a' <= c <= 'z' then (c as int - 32) as char else c
  }

  function LowerCase(c: char): char
  {
    if 'A' <= c <= 'Z' then (c as int + 32) as char else c
  }

  /** Kotlin's character comparison under `ignoreCase`: equal, or equal after
      upper-casing, or equal after lower-casing. */
  predicate CharsEqualIgnoringCase(x: char, y: char)
  {
    x == y || UpperCase(x) == UpperCase(y) || LowerCase(x) == LowerCase(y)
  }

  /** Kotlin's `a.equals(b, ignoreCase = true)`: same length and every position
      matches ignoring case. */
  predicate EqualsIgnoreCase(a: string, b: string)
  {
    |a| == |b| && forall i :: 0 <= i < |a| ==> CharsEqualIgnoringCase(a[i], b[i])
  }

  /** Ignoring case, two characters match exactly when they agree once both
      are lower-cased. */
  lemma CharsEqualIgnoringCaseByLowerCase(x: char, y: char)
    ensures CharsEqualIgnoringCase(x, y) <==> LowerCase(x) == LowerCase(y)
  {
  }

  /** Comparing ignoring case is an equivalence: it holds exactly when both
      strings agree once lower-cased, so it is reflexive and symmetric. */
  lemma EqualsIgnoreCaseByLowerCase(a: string, b: string)
    ensures EqualsIgnoreCase(a, b) <==>
            (|a| == |b| && forall i :: 0 <= i < |a| ==> LowerCase(a[i]) == LowerCase(b[i]))
    ensures EqualsIgnoreCase(a, a)
    ensures EqualsIgnoreCase(a, b) <==> EqualsIgnoreCase(b, a)
  {
    forall i | 0 <= i < |a| && i < |b| {
      CharsEqualIgnoringCaseByLowerCase(a[i], b[i]);
    }
  }

  // ---------------------------------------------------------------------
  // Int.toString()
  // ---------------------------------------------------------------------

  predicate IsDigit(c: char)
  {
    '0' <= c <= '9'
  }

  predicate AllDigits(s: string)
  {
    forall i :: 0 <= i < |s| ==> IsDigit(s[i])
  }

  function DigitChar(d: int): (c: char)
    requires 0 <= d < 10
    ensures IsDigit(c)
  {
    (d + '0' as int) as char
  }

  function DigitValue(c: char): (d: int)
    requires IsDigit(c)
    ensures 0 <= d < 10
  {
    c as int - '0' as int
  }

  /** Decimal digits of a natural number, most significant first, with no
      leading zero except for the number zero itself. */
  function NatToString(n: nat): (s: string)
    ensures s != [] && AllDigits(s)
    ensures s[0] == '0' ==> s == "0"
    decreases n
  {
    if n < 10 then [DigitChar(n)] else NatToString(n / 10) + [DigitChar(n % 10)]
  }

  /** Kotlin's `Int.toString()`: a minus sign before the digits of a negative
      number. */
  function IntToString(n: int): (s: string)
    ensures s != [] && (s[0] == '-' <==> n < 0)
  {
    if n < 0 then "-" + NatToString(-n) else NatToString(n)
  }

  /** Value of a string of decimal digits. */
  function DecimalValue(s: string): nat
    requires AllDigits(s)
    decreases |s|
  {
    if s == [] then 0 else DecimalValue(s[..|s| - 1]) * 10 + DigitValue(s[|s| - 1])
  }

  /** A decimal reader, the reference against which `IntToString` is checked:
      an optional minus sign followed by at least one digit. */
  function ParseInt(s: string): Option<int>
  {
    if s != [] && s[0] == '-' then
      if |s| > 1 && AllDigits(s[1..]) then var v: int := DecimalValue(s[1..]); Some(-v) else None
    else if s != [] && AllDigits(s) then Some(DecimalValue(s))
    else None
  }

  lemma {:induction false} NatToStringValue(n: nat)
    ensures DecimalValue(NatToString(n)) == n
    decreases n
  {
    var s := NatToString(n);
    if n >= 10 {
      NatToStringValue(n / 10);
      assert s[..|s| - 1] == NatToString(n / 10);
    }
  }

  /** Reading back the decimal string of a number gives the number. */
  lemma IntToStringRoundTrip(n: int)
    ensures ParseInt(IntToString(n)) == Some(n)
  {
    if n < 0 {
      NatToStringValue(-n);
      assert IntToString(n)[1..] == NatToString(-n);
    } else {
      NatToStringValue(n);
    }
  }

  /** Different numbers never render to the same string. */
  lemma IntToStringInjective(m: int, n: int)
    requires IntToString(m) == IntToString(n)
    ensures m == n
  {
    IntToStringRoundTrip(m);
    IntToStringRoundTrip(n);
  }
}
