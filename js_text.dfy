/** The JavaScript string primitives the handlers lean on: the white space
    that `trim` and `\s` recognise, `trim`, ASCII `toUpperCase`, the
    ASC/DESC normalisation, `parseInt` with no radix, `parseFloat` on
    decimal text, and the UTF-16 `length` of a string. */
module JsText {
  import opened Common

  /** WhiteSpace and LineTerminator code points of ECMAScript, the set that
      `String.prototype.trim`, `parseInt` and the regular expression class
      `\s` skip. */
  predicate IsJsSpace(c: char)
  {
    c == '\t' || c == '\n' || c == '\U{B}' || c == '\U{C}' || c == '\r' || c == ' '
    || c == '\U{A0}' || c == '\U{1680}' || ('\U{2000}' <= c <= '\U{200A}')
    || c == '\U{2028}' || c == '\U{2029}' || c == '\U{202F}' || c == '\U{205F}'
    || c == '\U{3000}' || c == '\U{FEFF}'
  }

  predicate AllSpace(s: string)
  {
    forall i :: 0 <= i < |s| ==> IsJsSpace(s[i])
  }

  /** `trimStart`: drop leading white space. */
  function TrimStart(s: string): (r: string)
    ensures |r| <= |s| && r == s[|s| - |r|..]
    ensures AllSpace(s[..|s| - |r|])
    ensures r != [] ==> !IsJsSpace(r[0])
  {
    if s != [] && IsJsSpace(s[0]) then
      var r := TrimStart(s[1..]);
      assert s[..|s| - |r|] == [s[0]] + s[1..][..|s[1..]| - |r|];
      r
    else s
  }

  /** `trimEnd`: drop trailing white space. */
  function TrimEnd(s: string): (r: string)
    ensures |r| <= |s| && r == s[..|r|]
    ensures AllSpace(s[|r|..])
    ensures r != [] ==> !IsJsSpace(r[|r| - 1])
  {
    if s != [] && IsJsSpace(s[|s| - 1]) then
      var r := TrimEnd(s[..|s| - 1]);
      assert s[|r|..] == s[..|s| - 1][|r|..] + [s[|s| - 1]];
      r
    else s
  }

  /** `String.prototype.trim`. */
  function Trim(s: string): string
  {
    TrimEnd(TrimStart(s))
  }

  /** A string trims to the empty string exactly when it is all white space;
      this is the test `q.trim() === ''` of the search handler. */
  lemma TrimEmptyIffAllSpace(s: string)
    ensures Trim(s) == "" <==> AllSpace(s)
  {
    var t := TrimStart(s);
    if t == [] {
      assert s[..|s|] == s;
    } else {
      assert t[0] == s[|s| - |t|];
      assert t[0..] == t;
    }
  }

  /** `toUpperCase` of one character, for every character whose upper case
      is a single ASCII letter: the ASCII letters themselves, the dotless
      i (U+0131) and the long s (U+017F). */
  function UpperChar(c: char): (r: char)
    ensures 'a' <= c <= 'z' ==> r as int == c as int - 32
    ensures c == '\U{131}' ==> r == 'I'
    ensures c == '\U{17F}' ==> r == 'S'
    ensures !('a' <= c <= 'z' || c == '\U{131}' || c == '\U{17F}') ==> r == c
  {
    if 'a' <= c <= 'z' then (c as int - 32) as char
    else if c == '\U{131}' then 'I'
    else if c == '\U{17F}' then 'S'
    else c
  }

  /** `toUpperCase`, character by character. */
  function Upper(s: string): (r: string)
    ensures |r| == |s|
    ensures forall i :: 0 <= i < |s| ==> r[i] == UpperChar(s[i])
  {
    if s == [] then [] else [UpperChar(s[0])] + Upper(s[1..])
  }

  /** `order.toUpperCase() === 'ASC' ? 'ASC' : 'DESC'`. */
  function NormalizeOrder(order: string): SortOrder
  {
    if Upper(order) == "ASC" then Asc else Desc
  }

  /** The order is ascending for exactly the spellings of "asc" that differ
      in letter case, the `s` possibly written as a long s; every other
      value means descending. */
  lemma NormalizeOrderAsc(order: string)
    ensures NormalizeOrder(order) == Asc <==>
      |order| == 3 && (order[0] == 'a' || order[0] == 'A')
      && (order[1] == 's' || order[1] == 'S' || order[1] == '\U{17F}') && (order[2] == 'c' || order[2] == 'C')
  {
    var u := Upper(order);
    if |order| == 3 {
      assert u == [UpperChar(order[0]), UpperChar(order[1]), UpperChar(order[2])];
    } else {
      assert |u| != 3;
    }
  }

  /** The spelled-out default `'DESC'` means descending. */
  lemma DescIsDescending()
    ensures NormalizeOrder("DESC") == Desc
  {
    NormalizeOrderAsc("DESC");
  }

  /** The value of a character as a digit in `radix` (10 or 16). */
  function DigitValue(c: char, radix: nat): Option<nat>
  {
    if '0' <= c <= '9' && (c as int - '0' as int) < radix then Some(c as int - '0' as int)
    else if radix == 16 && 'a' <= c <= 'f' then Some(c as int - 'a' as int + 10)
    else if radix == 16 && 'A' <= c <= 'F' then Some(c as int - 'A' as int + 10)
    else None
  }

  predicate IsDigit(c: char, radix: nat)
  {
    DigitValue(c, radix).Some?
  }

  /** The longest prefix of `s` made of digits of `radix`. */
  function DigitPrefix(s: string, radix: nat): (r: string)
    ensures |r| <= |s| && r == s[..|r|]
    ensures forall i :: 0 <= i < |r| ==> IsDigit(r[i], radix)
    ensures |r| < |s| ==> !IsDigit(s[|r|], radix)
  {
    if s != [] && IsDigit(s[0], radix) then [s[0]] + DigitPrefix(s[1..], radix) else []
  }

  /** The number a string of digits of `radix` denotes. */
  function DigitsValue(ds: string, radix: nat): nat
    requires forall i :: 0 <= i < |ds| ==> IsDigit(ds[i], radix)
  {
    if ds == [] then 0
    else
      assert IsDigit(ds[|ds| - 1], radix);
      DigitsValue(ds[..|ds| - 1], radix) * radix + DigitValue(ds[|ds| - 1], radix).value
  }

  /** `parseInt(s)` with no radix: leading white space is skipped, one sign
      is read, a `0x`/`0X` prefix selects hexadecimal, and the longest run of
      digits that follows is the value; no digits gives NaN (`None`). */
  function ParseInt(s: string): Option<int>
  {
    var t := TrimStart(s);
    var negative := t != [] && t[0] == '-';
    var unsigned := if t != [] && (t[0] == '-' || t[0] == '+') then t[1..] else t;
    var hex := |unsigned| >= 2 && unsigned[0] == '0' && (unsigned[1] == 'x' || unsigned[1] == 'X');
    var radix := if hex then 16 else 10;
    var digits := DigitPrefix(if hex then unsigned[2..] else unsigned, radix);
    if digits == [] then None
    else
      var v: int := DigitsValue(digits, radix);
      if negative then Some(-v) else Some(v)
  }

  /** The decimal spelling of a natural number, as `String(n)` writes it. */
  function Decimal(n: nat): (r: string)
    ensures r != []
    ensures forall i :: 0 <= i < |r| ==> IsDigit(r[i], 10)
    ensures DigitsValue(r, 10) == n
    ensures |r| > 1 ==> r[0] != '0'
  {
    var d := ['0' + (n % 10) as char];
    assert DigitValue(d[0], 10) == Some(n % 10);
    if n < 10 then d
    else
      var p := Decimal(n / 10);
      var r := p + d;
      assert r[..|r| - 1] == p;
      r
  }

  /** The decimal spelling of an integer, with a leading '-' when negative. */
  function IntString(n: int): string
  {
    if n < 0 then "-" + Decimal(-n) else Decimal(n)
  }

  /** A decimal spelling starts with a digit, carries no `0x` prefix and
      is all digits. */
  lemma DecimalShape(m: nat)
    ensures var d := Decimal(m);
      IsDigit(d[0], 10) && !IsJsSpace(d[0]) && d[0] != '-' && d[0] != '+'
      && !(|d| >= 2 && (d[1] == 'x' || d[1] == 'X'))
      && DigitPrefix(d, 10) == d
  {
    var d := Decimal(m);
    DigitPrefixAll(d, 10);
    assert IsDigit(d[0], 10);
    if |d| >= 2 {
      assert IsDigit(d[1], 10);
    }
  }

  /** A string that starts with a decimal digit and no `0x` prefix is read
      in base 10, up to its first non-digit. */
  lemma ParseIntDecimal(s: string)
    requires s != [] && IsDigit(s[0], 10) && !(|s| >= 2 && (s[1] == 'x' || s[1] == 'X'))
    ensures DigitPrefix(s, 10) != []
    ensures ParseInt(s) == Some(DigitsValue(DigitPrefix(s, 10), 10) as int)
  {
    assert !IsJsSpace(s[0]);
    var t := TrimStart(s);
    assert t == s;
    assert DigitPrefix(t, 10) == [s[0]] + DigitPrefix(s[1..], 10);
    assert !(t != [] && (t[0] == '-' || t[0] == '+'));
    assert !(|t| >= 2 && t[0] == '0' && (t[1] == 'x' || t[1] == 'X'));
  }

  /** After a minus sign, the same string is read as the negated value. */
  lemma ParseIntNegated(m: string)
    requires |m| >= 2 && m[0] == '-' && IsDigit(m[1], 10) && !(|m| >= 3 && (m[2] == 'x' || m[2] == 'X'))
    ensures DigitPrefix(m[1..], 10) != []
    ensures ParseInt(m) == Some(-(DigitsValue(DigitPrefix(m[1..], 10), 10) as int))
  {
    assert !IsJsSpace(m[0]);
    var t := TrimStart(m);
    assert t == m;
    var unsigned := t[1..];
    assert DigitPrefix(unsigned, 10) == [m[1]] + DigitPrefix(unsigned[1..], 10);
    assert !(|unsigned| >= 2 && unsigned[0] == '0' && (unsigned[1] == 'x' || unsigned[1] == 'X'));
  }

  /** `parseInt(String(n)) === n`: the decimal spelling of an integer reads
      back as that integer. */
  lemma ParseIntString(n: int)
    ensures ParseInt(IntString(n)) == Some(n)
  {
    var m := if n < 0 then -n else n;
    DecimalShape(m);
    if n < 0 {
      assert IntString(n)[1..] == Decimal(m);
      ParseIntNegated(IntString(n));
    } else {
      ParseIntDecimal(Decimal(m));
    }
  }

  /** `parseInt` of a query value, with a numeric default for an absent key
      (the default is a number, which `parseInt` reads back unchanged). */
  function QueryInt(s: Option<string>, default: int): (r: Option<int>)
    ensures s.None? ==> r == Some(default)
    ensures s.Some? ==> r == ParseInt(s.value)
  {
    if s.None? then Some(default) else ParseInt(s.value)
  }

  /** `s.length`: JavaScript counts UTF-16 code units, so a character
      outside the Basic Multilingual Plane counts as two. */
  function Utf16Length(s: string): (r: nat)
    ensures |s| <= r <= 2 * |s|
  {
    if s == [] then 0 else (if s[0] as int > 0xFFFF then 2 else 1) + Utf16Length(s[1..])
  }

  /** Every character of `s` is one UTF-16 code unit. */
  predicate InBmp(s: string)
  {
    forall i :: 0 <= i < |s| ==> s[i] as int <= 0xFFFF
  }

  /** `s.length` is the number of characters exactly when every character
      lies in the Basic Multilingual Plane. */
  lemma {:induction false} Utf16LengthBmp(s: string)
    ensures Utf16Length(s) == |s| <==> InBmp(s)
    decreases |s|
  {
    if s != [] {
      Utf16LengthBmp(s[1..]);
      assert InBmp(s) <==> s[0] as int <= 0xFFFF && InBmp(s[1..]) by {
        if s[0] as int <= 0xFFFF && InBmp(s[1..]) {
          forall i | 0 <= i < |s|
            ensures s[i] as int <= 0xFFFF
          {
            if i > 0 {
              assert s[i] == s[1..][i - 1];
            }
          }
        }
        if InBmp(s) {
          forall i | 0 <= i < |s[1..]|
            ensures s[1..][i] as int <= 0xFFFF
          {
            assert s[1..][i] == s[i + 1];
          }
        }
      }
    }
  }

  /** A JavaScript number written in decimal: `units / 10^scale`. */
  datatype DecimalValue = DecimalValue(units: int, scale: nat)

  function Pow10(n: nat): (r: nat)
    ensures r >= 1
  {
    if n == 0 then 1 else 10 * Pow10(n - 1)
  }

  /** The digits and fraction of `parseFloat` after the sign: the longest
      run of digits and, after a `.`, the fraction digits; with no digit on
      either side of the point the result is NaN (`None`). */
  function UnsignedDecimal(u: string): (r: Option<DecimalValue>)
    ensures r.Some? ==> r.value.units >= 0
  {
    var whole := DigitPrefix(u, 10);
    var rest := u[|whole|..];
    var fraction := if rest != [] && rest[0] == '.' then DigitPrefix(rest[1..], 10) else [];
    if whole == [] && fraction == [] then None
    else
      var digits := whole + fraction;
      assert forall i :: 0 <= i < |digits| ==> IsDigit(digits[i], 10) by {
        forall i | 0 <= i < |digits|
          ensures IsDigit(digits[i], 10)
        {
          if i >= |whole| {
            assert digits[i] == fraction[i - |whole|];
          }
        }
      }
      Some(DecimalValue(DigitsValue(digits, 10), |fraction|))
  }

  /** A run of digits alone is a whole number with no fraction digits. */
  lemma UnsignedDigits(d: string)
    requires d != [] && forall i :: 0 <= i < |d| ==> IsDigit(d[i], 10)
    ensures UnsignedDecimal(d) == Some(DecimalValue(DigitsValue(d, 10), 0))
  {
    DigitPrefixAll(d, 10);
    assert d[|d|..] == [];
    assert d + [] == d;
  }

  /** `parseFloat(s)` on decimal text: leading white space is skipped and
      one sign is read before the digits. */
  function ParseFloat(s: string): (r: Option<DecimalValue>)
    ensures r.None? <==> UnsignedDecimal(Unsigned(TrimStart(s))).None?
  {
    var t := TrimStart(s);
    match UnsignedDecimal(Unsigned(t))
    case None => None
    case Some(x) => if t != [] && t[0] == '-' then Some(DecimalValue(-x.units, x.scale)) else Some(x)
  }

  /** The text after one leading sign, if any. */
  function Unsigned(t: string): (r: string)
    ensures t != [] && (t[0] == '-' || t[0] == '+') ==> r == t[1..]
    ensures !(t != [] && (t[0] == '-' || t[0] == '+')) ==> r == t
  {
    if t != [] && (t[0] == '-' || t[0] == '+') then t[1..] else t
  }

  /** Text that is a run of digits, with or without a leading `-`, reads
      back as that run's value with no fraction digits. */
  lemma ParseFloatDigits(s: string, d: string, negative: bool)
    requires d != [] && forall i :: 0 <= i < |d| ==> IsDigit(d[i], 10)
    requires !IsJsSpace(d[0]) && d[0] != '-' && d[0] != '+'
    requires s == if negative then "-" + d else d
    ensures ParseFloat(s) == Some(DecimalValue(if negative then -(DigitsValue(d, 10) as int) else DigitsValue(d, 10), 0))
  {
    SignedDigits(s, d, negative);
    UnsignedDigits(d);
  }

  /** The sign and digits of `s`, and that no white space comes first. */
  lemma SignedDigits(s: string, d: string, negative: bool)
    requires d != [] && !IsJsSpace(d[0]) && d[0] != '-' && d[0] != '+'
    requires s == if negative then "-" + d else d
    ensures TrimStart(s) == s && Unsigned(s) == d
    ensures (s != [] && s[0] == '-') == negative
  {
    assert !IsJsSpace(s[0]);
    if negative {
      assert s[1..] == d;
    }
  }

  /** `parseFloat(String(n)) === n`: the decimal spelling of an integer
      reads back as that integer, with no fraction digits. */
  lemma ParseFloatString(n: int)
    ensures ParseFloat(IntString(n)) == Some(DecimalValue(n, 0))
  {
    var m := if n < 0 then -n else n;
    DecimalShape(m);
    ParseFloatDigits(IntString(n), Decimal(m), n < 0);
  }

  /** `parseInt(String(x))` for a number that `String` writes without an
      exponent: the integer part, truncated toward zero. */
  function IntegerPart(x: DecimalValue): (r: int)
    ensures x.units >= 0 ==> r >= 0
    ensures x.units >= 0 ==> 0 <= r * Pow10(x.scale) <= x.units < (r + 1) * Pow10(x.scale)
    ensures x.units < 0 ==> (r - 1) * Pow10(x.scale) < x.units <= r * Pow10(x.scale) <= 0
  {
    var p := Pow10(x.scale);
    if x.units >= 0 then
      FloorDiv(x.units, p);
      x.units / p
    else
      FloorDiv(-x.units, p);
      -((-x.units) / p)
  }

  /** Euclidean division by a positive number rounds down. */
  lemma FloorDiv(a: int, b: int)
    requires b > 0
    ensures (a / b) * b <= a < (a / b + 1) * b
    ensures a >= 0 ==> a / b >= 0
  {
    assert a == (a / b) * b + a % b;
    assert (a / b + 1) * b == (a / b) * b + b;
  }

  /** Rounding `a / b` down: a whole number is at most the quotient
      exactly when its multiple of `b` is at most `a`. */
  lemma AtMostQuotient(a: int, b: int, p: int)
    requires b > 0
    ensures p <= a / b <==> p * b <= a
  {
    var q := a / b;
    FloorDiv(a, b);
    if p <= q {
      MulMonotone(q, p, b);
    } else {
      MulMonotone(p, q + 1, b);
    }
  }

  /** `a / b` rounded up. */
  function RoundUp(a: int, b: int): int
    requires b > 0
  {
    -((-a) / b)
  }

  /** Rounding `a / b` up: a whole number is at least the rounded-up
      quotient exactly when its multiple of `b` is at least `a`. */
  lemma AtLeastQuotient(a: int, b: int, p: int)
    requires b > 0
    ensures p >= RoundUp(a, b) <==> p * b >= a
  {
    AtMostQuotient(-a, b, -p);
    assert (-p) * b == -(p * b);
  }

  lemma {:induction false} DigitPrefixAll(s: string, radix: nat)
    requires forall i :: 0 <= i < |s| ==> IsDigit(s[i], radix)
    ensures DigitPrefix(s, radix) == s
    decreases |s|
  {
    if s != [] {
      DigitPrefixAll(s[1..], radix);
    }
  }
}
