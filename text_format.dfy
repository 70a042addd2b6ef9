/**
 * The Python text operations the op-count CSV is built from: `str(x)` of an
 * integer and `sep.join(parts)`, with their inverses (`str.split` and
 * integer parsing) so that the text can be shown to determine the values.
 */
module TextFormat {
  import opened DarshanTypes

  predicate IsDigit(c: char)
  {
    '0' <= c <= '9'
  }

  function DigitChar(d: nat): (c: char)
    requires d < 10
    ensures IsDigit(c)
  {
    ('0' as int + d) as char
  }

  function DigitValue(c: char): (d: nat)
    requires IsDigit(c)
    ensures d < 10 && DigitChar(d) == c
  {
    (c as int - '0' as int) as nat
  }

  /** Every character of `s` is a decimal digit. */
  predicate AllDigits(s: string)
  {
    forall k :: 0 <= k < |s| ==> IsDigit(s[k])
  }

  /** The decimal digits of `n`, most significant first, without leading zeros. */
  function NatDigits(n: nat): (s: string)
    ensures |s| > 0 && AllDigits(s)
    decreases n
  {
    if n < 10 then [DigitChar(n)] else NatDigits(n / 10) + [DigitChar(n % 10)]
  }

  /** Python's `str(x)` for an integer: its decimal digits, with `-` when negative. */
  function IntToString(x: int): (s: string)
  {
    if x < 0 then "-" + NatDigits(-x) else NatDigits(x)
  }

  /** The value of a non-empty string of decimal digits. */
  function DigitsValue(s: string): (n: nat)
    requires |s| > 0 && AllDigits(s)
    decreases |s|
  {
    if |s| == 1 then DigitValue(s[0])
    else
      assert AllDigits(s[..|s| - 1]);
      10 * DigitsValue(s[..|s| - 1]) + DigitValue(s[|s| - 1])
  }

  lemma {:induction false} DigitsRoundTrip(n: nat)
    ensures DigitsValue(NatDigits(n)) == n
    decreases n
  {
    if n >= 10 {
      DigitsRoundTrip(n / 10);
      var s := NatDigits(n);
      assert s[..|s| - 1] == NatDigits(n / 10);
    }
  }

  /** `int(s)` for the strings `str` produces: an optional `-` and decimal digits. */
  function ParseInt(s: string): (x: Option<int>)
  {
    if |s| > 1 && s[0] == '-' && AllDigits(s[1..]) then Some(0 - DigitsValue(s[1..]) as int)
    else if |s| > 0 && AllDigits(s) then Some(DigitsValue(s))
    else None
  }

  /** Reading back `str(x)` gives `x`. */
  lemma IntRoundTrip(x: int)
    ensures ParseInt(IntToString(x)) == Some(x)
  {
    var s := IntToString(x);
    if x < 0 {
      var d := NatDigits(-x);
      assert s == "-" + d;
      assert s[1..] == d;
      DigitsRoundTrip(-x);
    } else {
      assert s == NatDigits(x);
      assert IsDigit(s[0]);
      DigitsRoundTrip(x);
    }
  }

  /** `str(x)` holds digits and at most a leading `-`: never a separator. */
  lemma IntToStringHasNo(x: int, sep: char)
    requires sep != '-' && !IsDigit(sep)
    ensures sep !in IntToString(x)
  {
  }

  /** `sep.join(parts)`. */
  function Join(parts: seq<string>, sep: char): (s: string)
    decreases |parts|
  {
    if |parts| == 0 then ""
    else if |parts| == 1 then parts[0]
    else parts[0] + [sep] + Join(parts[1..], sep)
  }

  /** Appending a part to a non-empty join puts one separator before it. */
  lemma {:induction false} JoinSnoc(parts: seq<string>, last: string, sep: char)
    requires |parts| > 0
    ensures Join(parts + [last], sep) == Join(parts, sep) + [sep] + last
    decreases |parts|
  {
    if |parts| > 1 {
      JoinSnoc(parts[1..], last, sep);
      assert (parts + [last])[1..] == parts[1..] + [last];
    }
  }

  /** `s.split(sep)`: the pieces between separators, `[""]` for the empty string. */
  function Split(s: string, sep: char): (r: seq<string>)
    ensures |r| > 0
    ensures forall k :: 0 <= k < |r| ==> sep !in r[k]
    decreases |s|
  {
    if |s| == 0 then [""]
    else
      var rest := Split(s[1..], sep);
      if s[0] == sep then [""] + rest else [[s[0]] + rest[0]] + rest[1..]
  }

  lemma {:induction false} SplitWithout(s: string, sep: char)
    requires sep !in s
    ensures Split(s, sep) == [s]
    decreases |s|
  {
    if |s| > 0 {
      SplitWithout(s[1..], sep);
      assert [s[0]] + s[1..] == s;
    }
  }

  /** A piece without the separator, then the separator, splits off as one piece. */
  lemma {:induction false} SplitAfter(a: string, sep: char, b: string)
    requires sep !in a
    ensures Split(a + [sep] + b, sep) == [a] + Split(b, sep)
    decreases |a|
  {
    var s := a + [sep] + b;
    if |a| == 0 {
      assert s[1..] == b;
    } else {
      SplitAfter(a[1..], sep, b);
      assert s[1..] == a[1..] + [sep] + b;
      assert [a[0]] + a[1..] == a;
    }
  }

  /** Splitting a join gives back the parts, when no part holds the separator. */
  lemma {:induction false} SplitJoin(parts: seq<string>, sep: char)
    requires |parts| > 0
    requires forall k :: 0 <= k < |parts| ==> sep !in parts[k]
    ensures Split(Join(parts, sep), sep) == parts
    decreases |parts|
  {
    if |parts| == 1 {
      SplitWithout(parts[0], sep);
    } else {
      SplitJoin(parts[1..], sep);
      SplitAfter(parts[0], sep, Join(parts[1..], sep));
    }
  }

  /** `str(x) for x in values`. */
  function Strings(values: seq<int>): (r: seq<string>)
    ensures |r| == |values|
    ensures forall k :: 0 <= k < |r| ==> r[k] == IntToString(values[k])
    decreases |values|
  {
    if |values| == 0 then [] else [IntToString(values[0])] + Strings(values[1..])
  }

  /** Parses every string as an integer; `None` if any fails. */
  function ParseInts(parts: seq<string>): (values: Option<seq<int>>)
    decreases |parts|
  {
    if |parts| == 0 then Some([])
    else match (ParseInt(parts[0]), ParseInts(parts[1..]))
      case (Some(x), Some(xs)) => Some([x] + xs)
      case _ => None
  }

  /** Parts that each parse to the matching value parse together to the values. */
  lemma {:induction false} ParseIntsOfParsed(parts: seq<string>, values: seq<int>)
    requires |parts| == |values|
    requires forall k :: 0 <= k < |parts| ==> ParseInt(parts[k]) == Some(values[k])
    ensures ParseInts(parts) == Some(values)
    decreases |parts|
  {
    if |parts| > 0 {
      ParseIntsOfParsed(parts[1..], values[1..]);
      assert ParseInt(parts[0]) == Some(values[0]);
      assert [values[0]] + values[1..] == values;
    }
  }

  /** Reading back `str(x) for x in values` gives `values`. */
  lemma ParseIntsRoundTrip(values: seq<int>)
    ensures ParseInts(Strings(values)) == Some(values)
  {
    var strs := Strings(values);
    forall k | 0 <= k < |strs|
      ensures ParseInt(strs[k]) == Some(values[k])
    {
      IntRoundTrip(values[k]);
    }
    ParseIntsOfParsed(strs, values);
  }
}
