/** The version codec of Repository.kt: Kotlin's Int.toString and String.toInt
    on 32-bit integers, sortableInt (a length letter followed by the decimal
    digits), the lexicographic order DynamoDB and Kotlin use on such keys, and
    String.split on a one-character delimiter. */
module Codec {
  import opened Wrappers

  const MinInt: int := -0x8000_0000
  const MaxInt: int := 0x7FFF_FFFF

  /** Kotlin's Int. */
  type Int32 = i: int | MinInt <= i <= MaxInt

  predicate IsDigit(c: char) { '0' <= c <= '9' }

  predicate AllDigits(s: string) { forall i :: 0 <= i < |s| ==> IsDigit(s[i]) }

  function DigitChar(d: nat): (c: char)
    requires d < 10
    ensures IsDigit(c)
  {
    ('0' as int + d) as char
  }

  function DigitValue(c: char): (d: nat)
    requires IsDigit(c)
    ensures d < 10 && DigitChar(d) == c
  {
    c as int - '0' as int
  }

  function Pow10(k: nat): (p: nat)
    ensures p >= 1
  {
    if k == 0 then 1 else 10 * Pow10(k - 1)
  }

  /** The decimal digits of n, most significant first ("0" for zero). */
  function Digits(n: nat): (s: string)
    ensures |s| >= 1 && AllDigits(s)
    ensures |s| == 1 <==> n < 10
  {
    if n < 10 then [DigitChar(n)] else Digits(n / 10) + [DigitChar(n % 10)]
  }

  /** The value of a string of decimal digits; None when some character is
      not a digit. */
  function ParseNat(s: string): Option<nat>
  {
    if s == [] then Some(0)
    else if !IsDigit(s[|s| - 1]) then None
    else
      match ParseNat(s[..|s| - 1])
      case None => None
      case Some(p) => Some(10 * p + DigitValue(s[|s| - 1]))
  }

  /** Int.toString: a minus sign for negative numbers, then the digits. */
  function IntToString(i: int): (s: string)
  {
    if i < 0 then "-" + Digits(-i) else Digits(i)
  }

  /** String.toInt: an optional sign and at least one digit, whose value fits
      in an Int; anything else is a NumberFormatException (None). */
  function ParseInt(s: string): (r: Option<Int32>)
  {
    if |s| == 0 then None
    else
      var body := if s[0] == '-' || s[0] == '+' then s[1..] else s;
      if |body| == 0 then None
      else
        match ParseNat(body)
        case None => None
        case Some(m) =>
          var v: int := if s[0] == '-' then -(m as int) else m;
          if MinInt <= v <= MaxInt then Some(v) else None
  }

  lemma {:induction false} DigitsRoundTrip(n: nat)
    ensures ParseNat(Digits(n)) == Some(n)
  {
    if n >= 10 {
      var s := Digits(n);
      assert s[..|s| - 1] == Digits(n / 10);
      DigitsRoundTrip(n / 10);
    }
  }

  /** toInt undoes toString on every Int. */
  lemma ParseIntRoundTrip(i: Int32)
    ensures ParseInt(IntToString(i)) == Some(i)
  {
    var n: nat := if i < 0 then -(i as int) else i as int;
    var s := IntToString(i);
    DigitsRoundTrip(n);
    if i < 0 {
      assert s == "-" + Digits(n) && s[0] == '-';
      assert s[1..] == Digits(n);
    } else {
      assert s == Digits(n) && IsDigit(s[0]);
    }
  }

  lemma {:induction false} DigitsLengthBound(n: nat, k: nat)
    requires 1 <= k && n < Pow10(k)
    ensures |Digits(n)| <= k
  {
    if n >= 10 {
      assert k >= 2;
      DigitsLengthBound(n / 10, k - 1);
    }
  }

  /** An Int prints as at most eleven characters ("-2147483648"). */
  lemma IntToStringLength(i: Int32)
    ensures 1 <= |IntToString(i)| <= 11
  {
    assert Pow10(10) == 10_000_000_000;
    if i < 0 { DigitsLengthBound(-(i as int), 10); } else { DigitsLengthBound(i as int, 10); }
  }

  /** sortableInt: the letter 'a' + length of the decimal string, then the
      decimal string itself. */
  function SortableInt(v: Int32): (s: string)
  {
    var asString := IntToString(v);
    IntToStringLength(v);
    [('a' as int + |asString|) as char] + asString
  }

  /** Dropping the length letter and parsing gives the version back. */
  lemma SortableIntRoundTrip(v: Int32)
    ensures ParseInt(SortableInt(v)[1..]) == Some(v)
  {
    assert SortableInt(v)[1..] == IntToString(v);
    ParseIntRoundTrip(v);
  }

  /** The length letter of a non-negative version is between 'b' and 'k'. */
  lemma SortableIntShape(v: Int32)
    requires v >= 0
    ensures |Digits(v)| <= 10
    ensures SortableInt(v)[0] == ('a' as int + |Digits(v)|) as char
    ensures 'b' <= SortableInt(v)[0] <= 'k'
    ensures SortableInt(v)[1..] == Digits(v)
    ensures '-' !in SortableInt(v)
  {
    assert Pow10(10) == 10_000_000_000;
    DigitsLengthBound(v as int, 10);
    var s := SortableInt(v);
    assert s[0] == ('a' as int + |Digits(v)|) as char;
    assert s[1..] == Digits(v);
    forall i | 0 <= i < |s| ensures s[i] != '-' {
      if i > 0 { assert s[i] == Digits(v)[i - 1]; }
    }
  }

  /** Lexicographic order of strings by character code: String.compareTo, and
      DynamoDB's order on sort keys for the ASCII keys used here. */
  predicate LexLess(a: string, b: string)
  {
    if |a| == 0 then |b| > 0
    else |b| > 0 && (a[0] < b[0] || (a[0] == b[0] && LexLess(a[1..], b[1..])))
  }

  lemma {:induction false} LexLessIrreflexive(a: string)
    ensures !LexLess(a, a)
  {
    if |a| > 0 { LexLessIrreflexive(a[1..]); }
  }

  lemma {:induction false} LexLessAsymmetric(a: string, b: string)
    requires LexLess(a, b)
    ensures !LexLess(b, a)
  {
    if |a| > 0 && a[0] == b[0] { LexLessAsymmetric(a[1..], b[1..]); }
  }

  lemma {:induction false} LexLessTransitive(a: string, b: string, c: string)
    requires LexLess(a, b) && LexLess(b, c)
    ensures LexLess(a, c)
  {
    if |a| > 0 && a[0] == b[0] && b[0] == c[0] {
      LexLessTransitive(a[1..], b[1..], c[1..]);
    }
  }

  lemma {:induction false} LexLessTotal(a: string, b: string)
    requires a != b
    ensures LexLess(a, b) || LexLess(b, a)
  {
    if |a| > 0 && |b| > 0 && a[0] == b[0] {
      assert a == [a[0]] + a[1..] && b == [b[0]] + b[1..];
      LexLessTotal(a[1..], b[1..]);
    }
  }

  /** A common prefix does not change the order. */
  lemma {:induction false} LexLessCommonPrefix(p: string, x: string, y: string)
    ensures LexLess(p + x, p + y) == LexLess(x, y)
  {
    if |p| > 0 {
      assert (p + x)[1..] == p[1..] + x && (p + y)[1..] == p[1..] + y;
      LexLessCommonPrefix(p[1..], x, y);
    } else {
      assert p + x == x && p + y == y;
    }
  }

  /** Between strings of equal length the order survives any extension. */
  lemma {:induction false} LexLessExtend(x: string, y: string, u: string, w: string)
    requires |x| == |y| && LexLess(x, y)
    ensures LexLess(x + u, y + w)
  {
    assert (x + u)[0] == x[0] && (y + w)[0] == y[0];
    if x[0] == y[0] {
      assert (x + u)[1..] == x[1..] + u && (y + w)[1..] == y[1..] + w;
      LexLessExtend(x[1..], y[1..], u, w);
    }
  }

  lemma {:induction false} DigitsLengthMonotone(a: nat, b: nat)
    requires a <= b
    ensures |Digits(a)| <= |Digits(b)|
  {
    if a >= 10 { DigitsLengthMonotone(a / 10, b / 10); }
  }

  /** Decimal strings of equal length sort as their values do. */
  lemma {:induction false} DigitsOrder(a: nat, b: nat)
    requires a < b && |Digits(a)| == |Digits(b)|
    ensures LexLess(Digits(a), Digits(b))
  {
    if b >= 10 {
      var pa, pb := Digits(a / 10), Digits(b / 10);
      var ca, cb := DigitChar(a % 10), DigitChar(b % 10);
      assert Digits(a) == pa + [ca] && Digits(b) == pb + [cb];
      if a / 10 < b / 10 {
        DigitsOrder(a / 10, b / 10);
        LexLessExtend(pa, pb, [ca], [cb]);
      } else {
        assert ca < cb;
        assert LexLess([ca], [cb]);
        LexLessCommonPrefix(pa, [ca], [cb]);
      }
    }
  }

  /** sortableInt preserves the order of non-negative Ints. */
  lemma SortableIntMonotone(a: Int32, b: Int32)
    requires 0 <= a < b
    ensures LexLess(SortableInt(a), SortableInt(b))
  {
    var da, db := Digits(a), Digits(b);
    var sa, sb := SortableInt(a), SortableInt(b);
    SortableIntShape(a);
    SortableIntShape(b);
    DigitsLengthMonotone(a, b);
    if |da| == |db| {
      DigitsOrder(a, b);
      assert sa == [sa[0]] + da && sb == [sa[0]] + db;
      LexLessCommonPrefix([sa[0]], da, db);
    }
  }

  /** On non-negative Ints the key order is exactly the numeric order. */
  lemma SortableIntOrder(a: Int32, b: Int32)
    requires 0 <= a && 0 <= b
    ensures LexLess(SortableInt(a), SortableInt(b)) <==> a < b
  {
    if a < b {
      SortableIntMonotone(a, b);
    } else if a == b {
      LexLessIrreflexive(SortableInt(a));
    } else {
      SortableIntMonotone(b, a);
      LexLessAsymmetric(SortableInt(b), SortableInt(a));
    }
  }

  /** String.split with a one-character delimiter: the pieces between
      delimiters, empty pieces included. */
  function Split(s: string, sep: char): (r: seq<string>)
    ensures |r| >= 1
  {
    if |s| == 0 then [""]
    else
      var rest := Split(s[1..], sep);
      if s[0] == sep then [""] + rest else [[s[0]] + rest[0]] + rest[1..]
  }

  lemma {:induction false} SplitNoDelimiter(s: string, sep: char)
    requires sep !in s
    ensures Split(s, sep) == [s]
  {
    if |s| > 0 {
      SplitNoDelimiter(s[1..], sep);
      assert [s[0]] + s[1..] == s;
    }
  }

  /** A string with exactly one delimiter splits into the two sides. */
  lemma {:induction false} SplitOnce(p: string, x: string, sep: char)
    requires sep !in p && sep !in x
    ensures Split(p + [sep] + x, sep) == [p, x]
  {
    if |p| == 0 {
      assert p + [sep] + x == [sep] + x;
      assert (p + [sep] + x)[1..] == x;
      SplitNoDelimiter(x, sep);
    } else {
      assert (p + [sep] + x)[1..] == p[1..] + [sep] + x;
      SplitOnce(p[1..], x, sep);
      assert [p[0]] + p[1..] == p;
    }
  }

  /** A string with two delimiters splits into three pieces. */
  lemma {:induction false} SplitTwice(p: string, x: string, y: string, sep: char)
    requires sep !in p && sep !in x && sep !in y
    ensures Split(p + [sep] + x + [sep] + y, sep) == [p, x, y]
  {
    var s := p + [sep] + x + [sep] + y;
    if |p| == 0 {
      assert s[0] == sep;
      assert s[1..] == x + [sep] + y;
      SplitOnce(x, y, sep);
    } else {
      assert s[1..] == p[1..] + [sep] + x + [sep] + y;
      SplitTwice(p[1..], x, y, sep);
      assert [p[0]] + p[1..] == p;
    }
  }
}
