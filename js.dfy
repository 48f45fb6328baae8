/** The parts of the JavaScript runtime that the application code relies on: values as they
    arrive from JSON or a form, Number(), truthiness, String.prototype.trim / split /
    padStart / toLowerCase (ASCII letters only), `.length` in UTF-16 code units, and `<` on
    strings, taken here in code-point order. */
module Js {

  datatype Option<+T> = None | Some(value: T)

  /** A JSON-like JavaScript value. Objects never occur where the model uses this type. */
  datatype JsValue =
    | Undefined
    | Null
    | Bool(b: bool)
    | Num(n: real)
    | Str(s: string)
    | Arr(items: seq<JsValue>)

  /** The outcome of Number(...): a finite value, or NaN (which here also stands for the
      two infinities: the code only ever asks whether a number is finite). */
  datatype Number = Finite(value: real) | NaN

  /** JavaScript truthiness. */
  predicate Truthy(v: JsValue) {
    match v
    case Undefined => false
    case Null => false
    case Bool(b) => b
    case Num(n) => n != 0.0
    case Str(s) => s != ""
    case Arr(_) => true
  }

  /** `v == null` in JavaScript: true for null and undefined only. */
  predicate IsNullish(v: JsValue) {
    v == Undefined || v == Null
  }

  // ---------------------------------------------------------------- characters

  /** ECMAScript WhiteSpace and LineTerminator: what trim() and the regex class \s remove. */
  predicate IsWhite(c: char) {
    c == '\t' || c == '\n' || c == '\U{0B}' || c == '\U{0C}' || c == '\r' || c == ' '
    || c == '\U{A0}' || c == '\U{1680}' || ('\U{2000}' <= c <= '\U{200A}')
    || c == '\U{2028}' || c == '\U{2029}' || c == '\U{202F}' || c == '\U{205F}'
    || c == '\U{3000}' || c == '\U{FEFF}'
  }

  predicate IsDigit(c: char) {
    '0' <= c <= '9'
  }

  predicate IsUpperAscii(c: char) {
    'A' <= c <= 'Z'
  }

  function LowerChar(c: char): (r: char)
    ensures !IsUpperAscii(r)
    ensures !IsUpperAscii(c) ==> r == c
  {
    if IsUpperAscii(c) then (c as int + 32) as char else c
  }

  /** toLowerCase() restricted to ASCII letters. */
  function ToLowerAscii(s: string): (r: string)
    ensures |r| == |s|
    ensures forall i :: 0 <= i < |s| ==> r[i] == LowerChar(s[i])
  {
    if |s| == 0 then [] else [LowerChar(s[0])] + ToLowerAscii(s[1..])
  }

  function Repeat(c: char, n: nat): (r: string)
    ensures |r| == n
    ensures forall i :: 0 <= i < n ==> r[i] == c
  {
    if n == 0 then [] else [c] + Repeat(c, n - 1)
  }

  // ---------------------------------------------------------------- trim

  function TrimStart(s: string): (r: string)
    ensures |r| <= |s| && r == s[|s| - |r|..]
    ensures r == [] || !IsWhite(r[0])
    ensures forall i :: 0 <= i < |s| - |r| ==> IsWhite(s[i])
  {
    if |s| > 0 && IsWhite(s[0]) then TrimStart(s[1..]) else s
  }

  function TrimEnd(s: string): (r: string)
    ensures |r| <= |s| && r == s[..|r|]
    ensures r == [] || !IsWhite(r[|r| - 1])
    ensures forall i :: |r| <= i < |s| ==> IsWhite(s[i])
  {
    if |s| > 0 && IsWhite(s[|s| - 1]) then TrimEnd(s[..|s| - 1]) else s
  }

  /** String.prototype.trim: the longest slice of `s` without white space at either end. */
  function Trim(s: string): (r: string)
    ensures |r| <= |s|
    ensures r == [] || (!IsWhite(r[0]) && !IsWhite(r[|r| - 1]))
  {
    TrimEnd(TrimStart(s))
  }

  /** Trimming only removes characters. */
  lemma TrimChars(s: string)
    ensures forall c :: c in Trim(s) ==> c in s
  {
    var t := TrimStart(s);
    var r := TrimEnd(t);
    var k := |s| - |t|;
    assert r == t[..|r|];
    assert t == s[k..];
    forall c | c in r
      ensures c in s
    {
      var j :| 0 <= j < |r| && r[j] == c;
      assert t[j] == c;
      assert s[k + j] == c;
    }
  }

  lemma TrimOfUntrimmed(s: string)
    requires s == [] || (!IsWhite(s[0]) && !IsWhite(s[|s| - 1]))
    ensures Trim(s) == s
  {
  }

  lemma TrimDropsLeadingWhite(s: string)
    requires |s| > 0 && IsWhite(s[0])
    ensures Trim(s) == Trim(s[1..])
  {
  }

  // ---------------------------------------------------------------- split / join

  function IndexOf(s: string, c: char): (i: nat)
    requires c in s
    ensures i < |s| && s[i] == c && c !in s[..i]
  {
    if s[0] == c then 0 else 1 + IndexOf(s[1..], c)
  }

  function Join(parts: seq<string>, sep: char): string
    requires |parts| >= 1
  {
    if |parts| == 1 then parts[0] else parts[0] + [sep] + Join(parts[1..], sep)
  }

  /** String.prototype.split with a one-character separator. */
  function Split(s: string, sep: char): (parts: seq<string>)
    ensures |parts| >= 1
    ensures |parts| == 1 <==> sep !in s
    ensures parts[0] == if sep in s then s[..IndexOf(s, sep)] else s
    decreases |s|
  {
    if sep !in s then [s] else [s[..IndexOf(s, sep)]] + Split(s[IndexOf(s, sep) + 1..], sep)
  }

  /** `split` for a text made of two pieces around one separator. */
  lemma SplitPair(a: string, b: string, sep: char)
    requires sep !in a && sep !in b
    ensures Split(a + [sep] + b, sep) == [a, b]
  {
    var s := a + [sep] + b;
    assert s[|a|] == sep;
    assert s[..|a|] == a;
    assert IndexOf(s, sep) == |a|;
    assert s[|a| + 1..] == b;
  }

  /** Splitting loses nothing: joining the parts back gives the string, and no part
      contains the separator. */
  lemma SplitJoin(s: string, sep: char)
    ensures Join(Split(s, sep), sep) == s
    ensures forall i :: 0 <= i < |Split(s, sep)| ==> sep !in Split(s, sep)[i]
  {
    SplitJoinBack(s, sep);
    SplitPartsClean(s, sep);
  }

  lemma {:induction false} SplitJoinBack(s: string, sep: char)
    ensures Join(Split(s, sep), sep) == s
    decreases |s|
  {
    if sep in s {
      var i := IndexOf(s, sep);
      var rest := s[i + 1..];
      SplitJoinBack(rest, sep);
      assert Join(Split(s, sep), sep) == s[..i] + [sep] + Join(Split(rest, sep), sep) by {
        assert Split(s, sep)[1..] == Split(rest, sep);
      }
      Around(s, i);
    }
  }

  lemma {:induction false} SplitPartsClean(s: string, sep: char)
    ensures forall i :: 0 <= i < |Split(s, sep)| ==> sep !in Split(s, sep)[i]
    decreases |s|
  {
    if sep in s {
      var i := IndexOf(s, sep);
      var rest := s[i + 1..];
      SplitPartsClean(rest, sep);
      assert Split(s, sep) == [s[..i]] + Split(rest, sep);
      PrependClean(s[..i], Split(rest, sep), sep);
    }
  }

  lemma PrependClean(p: string, q: seq<string>, sep: char)
    requires sep !in p && forall k :: 0 <= k < |q| ==> sep !in q[k]
    ensures forall k :: 0 <= k < |[p] + q| ==> sep !in ([p] + q)[k]
  {
    forall k | 0 <= k < |[p] + q|
      ensures sep !in ([p] + q)[k]
    {
      if k > 0 {
        assert ([p] + q)[k] == q[k - 1];
      }
    }
  }

  /** A sequence is what comes before position `i`, the element there, and the rest. */
  lemma Around<T>(s: seq<T>, i: nat)
    requires i < |s|
    ensures s == s[..i] + [s[i]] + s[i + 1..]
  {
  }

  /** String.prototype.replace with a one-character string pattern: the first occurrence only. */
  function ReplaceFirst(s: string, c: char, d: char): (r: string)
    ensures |r| == |s|
    ensures c !in s ==> r == s
    ensures c in s ==> r == s[..IndexOf(s, c)] + [d] + s[IndexOf(s, c) + 1..]
  {
    if c in s then s[..IndexOf(s, c)] + [d] + s[IndexOf(s, c) + 1..] else s
  }

  // ---------------------------------------------------------------- digits and numbers

  predicate AllDigits(s: string) {
    forall i :: 0 <= i < |s| ==> IsDigit(s[i])
  }

  function DigitValue(c: char): nat
    requires IsDigit(c)
  {
    c as int - '0' as int
  }

  function DigitChar(d: nat): (c: char)
    requires d < 10
    ensures IsDigit(c) && DigitValue(c) == d
  {
    ('0' as int + d) as char
  }

  function Pow10(n: nat): (p: nat)
    ensures p >= 1
  {
    if n == 0 then 1 else 10 * Pow10(n - 1)
  }

  /** The value of a string of decimal digits ("" counts as 0). */
  function DigitsValue(s: string): nat
    requires AllDigits(s)
  {
    if |s| == 0 then 0 else 10 * DigitsValue(s[..|s| - 1]) + DigitValue(s[|s| - 1])
  }

  lemma {:induction false} DigitsValueBound(s: string)
    requires AllDigits(s)
    ensures DigitsValue(s) < Pow10(|s|)
  {
    if |s| > 0 {
      DigitsValueBound(s[..|s| - 1]);
    }
  }

  /** Reading the most significant digit first. */
  lemma {:induction false} DigitsValueFront(s: string)
    requires AllDigits(s) && |s| > 0
    ensures DigitsValue(s) == DigitValue(s[0]) * Pow10(|s| - 1) + DigitsValue(s[1..])
  {
    if |s| > 1 {
      var init, tail := s[..|s| - 1], s[1..];
      DigitsValueFront(init);
      var d0, mid, c := DigitValue(s[0]), DigitsValue(init[1..]), DigitValue(s[|s| - 1]);
      assert DigitsValue(init) == d0 * Pow10(|s| - 2) + mid by {
        assert init[0] == s[0];
      }
      assert DigitsValue(tail) == 10 * mid + c by {
        assert tail[..|tail| - 1] == init[1..];
        assert tail[|tail| - 1] == s[|s| - 1];
      }
      assert DigitsValue(s) == 10 * DigitsValue(init) + c;
      MulTen(d0, Pow10(|s| - 2));
    }
  }

  lemma {:induction false} DigitsValueConcat(a: string, b: string)
    requires AllDigits(a) && AllDigits(b)
    ensures AllDigits(a + b)
    ensures DigitsValue(a + b) == DigitsValue(a) * Pow10(|b|) + DigitsValue(b)
  {
    assert AllDigits(a + b) by {
      forall i | 0 <= i < |a + b|
        ensures IsDigit((a + b)[i])
      {
        if i < |a| { assert (a + b)[i] == a[i]; } else { assert (a + b)[i] == b[i - |a|]; }
      }
    }
    if |b| > 0 {
      var b', c := b[..|b| - 1], b[|b| - 1];
      assert (a + b)[..|a + b| - 1] == a + b';
      assert (a + b)[|a + b| - 1] == c;
      DigitsValueConcat(a, b');
      var da, db, p' := DigitsValue(a), DigitsValue(b'), Pow10(|b'|);
      assert DigitsValue(a + b) == 10 * (da * p' + db) + DigitValue(c);
      assert DigitsValue(b) == 10 * db + DigitValue(c);
      assert Pow10(|b|) == 10 * p';
      MulTen(da, p');
    } else {
      assert a + b == a;
    }
  }

  lemma MulTen(x: nat, y: nat)
    ensures x * (10 * y) == 10 * (x * y)
  {
  }

  lemma {:induction false} LeadingZeros(n: nat, s: string)
    requires AllDigits(s)
    ensures AllDigits(Repeat('0', n) + s)
    ensures DigitsValue(Repeat('0', n) + s) == DigitsValue(s)
  {
    ZerosValue(n);
    DigitsValueConcat(Repeat('0', n), s);
  }

  lemma {:induction false} ZerosValue(n: nat)
    ensures AllDigits(Repeat('0', n)) && DigitsValue(Repeat('0', n)) == 0
  {
    if n > 0 {
      assert Repeat('0', n)[..n - 1] == Repeat('0', n - 1);
      ZerosValue(n - 1);
    }
  }

  /** String(n) for a natural number. */
  function NatToString(n: nat): (s: string)
    ensures |s| >= 1 && AllDigits(s) && DigitsValue(s) == n
    ensures n < 10 <==> |s| == 1
  {
    if n < 10 then [DigitChar(n)]
    else
      var s := NatToString(n / 10) + [DigitChar(n % 10)];
      assert s[..|s| - 1] == NatToString(n / 10);
      s
  }

  /** String(n) for an integer. */
  function IntToString(n: int): string {
    if n < 0 then "-" + NatToString(-n) else NatToString(n)
  }

  /** String.prototype.padStart. */
  function PadStart(s: string, width: nat, fill: char): (r: string)
    ensures |r| == if |s| >= width then |s| else width
  {
    if |s| >= width then s else Repeat(fill, width - |s|) + s
  }

  /** String(n).padStart(width, '0') reads back as n. */
  lemma ZeroPaddedValue(n: nat, width: nat)
    ensures AllDigits(PadStart(NatToString(n), width, '0'))
    ensures DigitsValue(PadStart(NatToString(n), width, '0')) == n
  {
    var s := NatToString(n);
    if |s| < width {
      LeadingZeros(width - |s|, s);
    }
  }

  /** A natural below 10^k prints with at most k digits. */
  lemma {:induction false} NatToStringBelow(n: nat, k: nat)
    requires n < Pow10(k) && k >= 1
    ensures |NatToString(n)| <= k
  {
    if n >= 10 {
      NatToStringBelow(n / 10, k - 1);
    }
  }

  /** String(n).padStart(width, '0'). */
  function Pad(n: nat, width: nat): string {
    PadStart(NatToString(n), width, '0')
  }

  /** A padded number is a non-empty digit string that reads back as the number. */
  lemma PadDigits(n: nat, width: nat)
    ensures |Pad(n, width)| >= 1 && AllDigits(Pad(n, width)) && DigitsValue(Pad(n, width)) == n
  {
    ZeroPaddedValue(n, width);
    assert |Pad(n, width)| >= |NatToString(n)|;
  }

  lemma PadLength(n: nat, width: nat)
    requires width >= 1 && n < Pow10(width)
    ensures |Pad(n, width)| == width
  {
    NatToStringBelow(n, width);
  }

  lemma {:induction false} PowMonotone(a: nat, b: nat)
    requires a <= b
    ensures Pow10(a) <= Pow10(b)
  {
    if a < b {
      PowMonotone(a, b - 1);
    }
  }

  /** Number(s) for a string: white space trimmed, "" is 0, an optional sign, decimal digits
      with at most one decimal point. Exponents and 0x/0o/0b prefixes are outside the model
      and read as NaN. */
  function StringToNumber(s: string): Number {
    var t := Trim(s);
    if t == "" then Finite(0.0)
    else if t[0] == '-' then Negate(UnsignedDecimal(t[1..]))
    else if t[0] == '+' then UnsignedDecimal(t[1..])
    else UnsignedDecimal(t)
  }

  function Negate(n: Number): Number {
    match n
    case Finite(v) => Finite(-v)
    case NaN => NaN
  }

  function UnsignedDecimal(s: string): Number {
    if '.' in s then
      var i := IndexOf(s, '.');
      var ip, fp := s[..i], s[i + 1..];
      if AllDigits(ip) && AllDigits(fp) && |ip| + |fp| > 0
      then Finite(DigitsValue(ip) as real + Fraction(fp))
      else NaN
    else if |s| > 0 && AllDigits(s) then Finite(DigitsValue(s) as real)
    else NaN
  }

  /** The value of the digits after a decimal point. */
  function Fraction(fp: string): real
    requires AllDigits(fp)
  {
    if |fp| == 0 then 0.0 else (DigitValue(fp[0]) as real + Fraction(fp[1..])) / 10.0
  }

  /** Number(String(n)) == n for naturals, also with leading zeros. */
  lemma DigitStringNumber(s: string)
    requires |s| > 0 && AllDigits(s)
    ensures StringToNumber(s) == Finite(DigitsValue(s) as real)
  {
    assert IsDigit(s[0]) && IsDigit(s[|s| - 1]);
    TrimOfUntrimmed(s);
    assert Trim(s) == s;
    assert forall i :: 0 <= i < |s| ==> s[i] != '.';
    assert s[0] != '-' && s[0] != '+';
    assert UnsignedDecimal(s) == Finite(DigitsValue(s) as real);
  }

  /** Number(v) for every JsValue. */
  function ToNumber(v: JsValue): Number {
    match v
    case Undefined => NaN
    case Null => Finite(0.0)
    case Bool(b) => Finite(if b then 1.0 else 0.0)
    case Num(n) => Finite(n)
    case Str(s) => StringToNumber(s)
    case Arr(items) =>
      // String(array) joins the elements with ',': "" for [], the element's text for one
      // element (null and undefined print as ""), and a text containing ',' otherwise.
      if |items| == 0 then Finite(0.0)
      else if |items| == 1 then
        (match items[0]
         case Undefined => Finite(0.0)
         case Null => Finite(0.0)
         case Bool(_) => NaN
         case _ => ToNumber(items[0]))
      else NaN
  }

  /** parseInt(String(v)) with radix 10: leading white space, an optional sign, then the
      longest run of decimal digits; NaN (None) when there is no digit. */
  function ParseInt(v: JsValue): Option<int> {
    match v
    case Str(s) => ParseIntText(s)
    case Num(n) => if n >= 0.0 then Some(n.Floor) else Some(-((-n).Floor))
    case _ => None   // "undefined", "null", "true", "false" have no leading digit
  }

  function ParseIntText(s: string): Option<int> {
    var t := TrimStart(s);
    if |t| > 0 && t[0] == '-' then
      (match DigitPrefix(t[1..]) case None => None case Some(n) => Some(-n))
    else if |t| > 0 && t[0] == '+' then
      (match DigitPrefix(t[1..]) case None => None case Some(n) => Some(n))
    else (match DigitPrefix(t) case None => None case Some(n) => Some(n))
  }

  function LeadingDigits(s: string): (r: string)
    ensures |r| <= |s| && AllDigits(r) && r == s[..|r|]
    ensures |r| < |s| ==> !IsDigit(s[|r|])
  {
    if |s| > 0 && IsDigit(s[0]) then [s[0]] + LeadingDigits(s[1..]) else []
  }

  function DigitPrefix(s: string): Option<int> {
    var d := LeadingDigits(s);
    if d == [] then None else Some(DigitsValue(d))
  }

  // ---------------------------------------------------------------- string length

  /** `s.length`: the number of UTF-16 code units, two for a character above U+FFFF. */
  function Utf16Length(s: string): (n: nat)
    ensures |s| <= n <= 2 * |s|
  {
    if |s| == 0 then 0 else (if s[0] as int >= 0x1_0000 then 2 else 1) + Utf16Length(s[1..])
  }

  /** Below U+10000 every character is one code unit; one above counts twice. */
  lemma {:induction false} Utf16LengthBmp(s: string)
    requires forall i :: 0 <= i < |s| ==> s[i] as int < 0x1_0000
    ensures Utf16Length(s) == |s|
  {
    if |s| > 0 {
      Utf16LengthBmp(s[1..]);
    }
  }

  lemma Utf16LengthExample()
    ensures Utf16Length("\U{1F600}\U{1F600}") == 4
  {
    assert "\U{1F600}\U{1F600}"[1..] == "\U{1F600}";
  }

  // ---------------------------------------------------------------- string order

  /** `a < b` on strings: lexicographic order of the characters, which are code points.
      JavaScript compares UTF-16 code units; the two orders agree on texts below U+E000,
      such as the clock times, dates and ids the application compares. */
  predicate LexLess(a: string, b: string)
    decreases |a|
  {
    if |a| == 0 then |b| > 0
    else if |b| == 0 then false
    else if a[0] != b[0] then a[0] < b[0]
    else LexLess(a[1..], b[1..])
  }

  lemma {:induction false} LexLessIrreflexive(a: string)
    ensures !LexLess(a, a)
  {
    if |a| > 0 {
      LexLessIrreflexive(a[1..]);
    }
  }

  lemma {:induction false} LexLessAsymmetric(a: string, b: string)
    ensures !(LexLess(a, b) && LexLess(b, a))
    decreases |a|
  {
    if |a| > 0 && |b| > 0 && a[0] == b[0] {
      LexLessAsymmetric(a[1..], b[1..]);
    }
  }

  lemma {:induction false} LexLessTotal(a: string, b: string)
    ensures a == b || LexLess(a, b) || LexLess(b, a)
    decreases |a|
  {
    if |a| > 0 && |b| > 0 && a[0] == b[0] {
      LexLessTotal(a[1..], b[1..]);
      if a[1..] == b[1..] {
        assert a == [a[0]] + a[1..] && b == [b[0]] + b[1..];
      }
    }
  }

  lemma {:induction false} LexLessTransitive(a: string, b: string, c: string)
    requires LexLess(a, b) && LexLess(b, c)
    ensures LexLess(a, c)
    decreases |a|
  {
    if |a| > 0 && a[0] == b[0] && b[0] == c[0] {
      LexLessTransitive(a[1..], b[1..], c[1..]);
    }
  }

  /** Comparing two strings that start with pieces of the same length. */
  lemma {:induction false} LexLessConcat(x: string, y: string, x': string, y': string)
    requires |x| == |x'|
    ensures LexLess(x + y, x' + y') <==> LexLess(x, x') || (x == x' && LexLess(y, y'))
    decreases |x|
  {
    if |x| == 0 {
      assert x + y == y && x' + y' == y';
    } else {
      assert (x + y)[0] == x[0] && (x' + y')[0] == x'[0];
      assert (x + y)[1..] == x[1..] + y && (x' + y')[1..] == x'[1..] + y';
      LexLessConcat(x[1..], y, x'[1..], y');
      if x[0] == x'[0] && x[1..] == x'[1..] {
        assert x == [x[0]] + x[1..] && x' == [x'[0]] + x'[1..];
      }
    }
  }

  /** For digit strings of one length, string order is numeric order. */
  lemma {:induction false} LexLessDigits(a: string, b: string)
    requires |a| == |b| && AllDigits(a) && AllDigits(b)
    ensures LexLess(a, b) <==> DigitsValue(a) < DigitsValue(b)
    decreases |a|
  {
    if |a| > 0 {
      DigitsValueFront(a);
      DigitsValueFront(b);
      DigitsValueBound(a[1..]);
      DigitsValueBound(b[1..]);
      LexLessDigits(a[1..], b[1..]);
      var p := Pow10(|a| - 1);
      var da, db := DigitValue(a[0]), DigitValue(b[0]);
      var ra, rb := DigitsValue(a[1..]), DigitsValue(b[1..]);
      if da < db {
        FrontDigitDominates(da, db, ra, rb, p);
        assert LexLess(a, b);
      } else if db < da {
        FrontDigitDominates(db, da, rb, ra, p);
        assert !LexLess(a, b) by { LexLessAsymmetric(a, b); }
      } else {
        assert a[0] == b[0];
      }
    }
  }

  /** Two digit strings of one length with one value are the same string. */
  lemma DigitsValueInjective(a: string, b: string)
    requires |a| == |b| && AllDigits(a) && AllDigits(b) && DigitsValue(a) == DigitsValue(b)
    ensures a == b
  {
    LexLessTotal(a, b);
    LexLessDigits(a, b);
    LexLessDigits(b, a);
  }

  lemma FrontDigitDominates(x: nat, y: nat, rx: nat, ry: nat, p: nat)
    requires x < y && rx < p && ry < p
    ensures x * p + rx < y * p + ry
  {
    assert (x + 1) * p <= y * p by { MulMonotone(x + 1, y, p); }
    assert (x + 1) * p == x * p + p;
  }

  lemma MulMonotone(x: nat, y: nat, p: nat)
    requires x <= y
    ensures x * p <= y * p
  {
  }

  // ---------------------------------------------------------------- sequences

  /** Array.prototype.filter. */
  function Filter<T>(p: T -> bool, s: seq<T>): (r: seq<T>)
    ensures |r| <= |s|
    ensures forall i :: 0 <= i < |r| ==> r[i] in s && p(r[i])
    ensures forall i :: 0 <= i < |s| && p(s[i]) ==> s[i] in r
  {
    if |s| == 0 then [] else (if p(s[0]) then [s[0]] else []) + Filter(p, s[1..])
  }

  /** `a` is `b` with some elements left out, the rest in the same order. */
  predicate IsSubsequence<T(==)>(a: seq<T>, b: seq<T>)
    decreases |b|
  {
    |a| == 0 || (|b| > 0 && if a[0] == b[0] then IsSubsequence(a[1..], b[1..]) else IsSubsequence(a, b[1..]))
  }

  lemma {:induction false} SubsequenceOfTail<T>(a: seq<T>, b: seq<T>)
    requires |b| > 0 && IsSubsequence(a, b[1..])
    ensures IsSubsequence(a, b)
    decreases |b|, |a|
  {
    if |a| > 0 && a[0] == b[0] {
      SubsequenceDropFirst(a, b[1..]);
    }
  }

  lemma {:induction false} SubsequenceDropFirst<T>(a: seq<T>, b: seq<T>)
    requires |a| > 0 && IsSubsequence(a, b)
    ensures IsSubsequence(a[1..], b)
    decreases |b|, |a|
  {
    if a[0] == b[0] {
      SubsequenceOfTail(a[1..], b);
    } else {
      SubsequenceDropFirst(a, b[1..]);
      SubsequenceOfTail(a[1..], b);
    }
  }

  lemma {:induction false} FilterIsSubsequence<T>(p: T -> bool, s: seq<T>)
    ensures IsSubsequence(Filter(p, s), s)
  {
    if |s| > 0 {
      FilterIsSubsequence(p, s[1..]);
      var r := Filter(p, s[1..]);
      if p(s[0]) {
        assert Filter(p, s) == [s[0]] + r;
        assert (([s[0]] + r)[1..]) == r;
      } else {
        assert Filter(p, s) == r;
        SubsequenceOfTail(r, s);
      }
    }
  }

  /** Array.prototype.filter keeps the elements that satisfy `p`, in their order, and no others. */
  lemma {:induction false} FilterKeepsAll<T>(p: T -> bool, s: seq<T>)
    requires forall x :: x in s ==> p(x)
    ensures Filter(p, s) == s
  {
    if |s| > 0 {
      FilterKeepsAll(p, s[1..]);
      assert [s[0]] + s[1..] == s;
    }
  }

  function Count<T>(p: T -> bool, s: seq<T>): nat {
    if |s| == 0 then 0 else (if p(s[0]) then 1 else 0) + Count(p, s[1..])
  }

  lemma {:induction false} FilterLength<T>(p: T -> bool, s: seq<T>)
    ensures |Filter(p, s)| == Count(p, s)
  {
    if |s| > 0 {
      FilterLength(p, s[1..]);
    }
  }

  lemma {:induction false} CountZeroKeepsLength<T>(p: T -> bool, s: seq<T>)
    requires forall x :: x in s ==> p(x)
    ensures Count(p, s) == |s|
  {
    if |s| > 0 {
      CountZeroKeepsLength(p, s[1..]);
    }
  }

  /** Filtering drops something exactly when some element fails `p`. */
  lemma {:induction false} FilterDropsFailing<T>(p: T -> bool, s: seq<T>)
    ensures |Filter(p, s)| == |s| <==> forall x :: x in s ==> p(x)
  {
    if |s| > 0 {
      FilterDropsFailing(p, s[1..]);
      assert forall x :: x in s <==> x == s[0] || x in s[1..];
      assert |Filter(p, s[1..])| <= |s[1..]|;
    }
  }

  lemma FilterMembers<T>(p: T -> bool, s: seq<T>, x: T)
    ensures x in Filter(p, s) <==> x in s && p(x)
  {
    var r := Filter(p, s);
    if x in s && p(x) {
      var i :| 0 <= i < |s| && s[i] == x;
    }
    if x in r {
      var i :| 0 <= i < |r| && r[i] == x;
    }
  }

  /** Array.prototype.findIndex: the first index whose element satisfies `p`, or -1. */
  function FindIndex<T>(p: T -> bool, s: seq<T>): (i: int)
    ensures -1 <= i < |s|
    ensures i >= 0 ==> p(s[i]) && forall j :: 0 <= j < i ==> !p(s[j])
    ensures i == -1 <==> forall j :: 0 <= j < |s| ==> !p(s[j])
  {
    if |s| == 0 then -1
    else if p(s[0]) then 0
    else
      var k := FindIndex(p, s[1..]);
      if k == -1 then -1 else k + 1
  }

  /** `[...new Set(xs)]`: the first occurrence of every value, in order. */
  function Dedup<T(==,!new)>(xs: seq<T>): (d: seq<T>)
    ensures forall x :: x in d <==> x in xs
  {
    if |xs| == 0 then []
    else
      var init := Dedup(xs[..|xs| - 1]);
      assert forall x :: x in xs <==> x in xs[..|xs| - 1] || x == xs[|xs| - 1] by {
        assert xs == xs[..|xs| - 1] + [xs[|xs| - 1]];
      }
      if xs[|xs| - 1] in init then init else init + [xs[|xs| - 1]]
  }

  predicate Distinct<T(==)>(d: seq<T>) {
    forall i, j :: 0 <= i < j < |d| ==> d[i] != d[j]
  }

  /** Where a value occurs first. */
  function FirstPos<T(==)>(xs: seq<T>, x: T): (p: nat)
    requires x in xs
    ensures p < |xs| && xs[p] == x && x !in xs[..p]
  {
    if xs[0] == x then 0
    else
      var p := FirstPos(xs[1..], x);
      assert xs[..p + 1] == [xs[0]] + xs[1..][..p];
      p + 1
  }

  /** One more value is appended exactly when it was not seen before. */
  lemma DedupSnoc<T(!new)>(xs: seq<T>, x: T)
    ensures Dedup(xs + [x]) == if x in Dedup(xs) then Dedup(xs) else Dedup(xs) + [x]
  {
    assert (xs + [x])[..|xs|] == xs;
  }

  /** The list holds each value once, ordered by where the value first occurs. */
  lemma DedupSpec<T(!new)>(xs: seq<T>)
    ensures Distinct(Dedup(xs))
    ensures forall i, j :: 0 <= i < j < |Dedup(xs)| ==> FirstPos(xs, Dedup(xs)[i]) < FirstPos(xs, Dedup(xs)[j])
  {
    DedupDistinct(xs);
    DedupOrdered(xs);
  }

  lemma {:induction false} DedupDistinct<T(!new)>(xs: seq<T>)
    ensures Distinct(Dedup(xs))
  {
    if |xs| > 0 {
      var init, x := xs[..|xs| - 1], xs[|xs| - 1];
      DedupDistinct(init);
      var d := Dedup(init);
      if x !in d {
        assert Dedup(xs) == d + [x];
        assert forall i :: 0 <= i < |d| ==> d[i] != x;
      }
    }
  }

  lemma {:induction false} DedupOrdered<T(!new)>(xs: seq<T>)
    ensures forall i, j :: 0 <= i < j < |Dedup(xs)| ==> FirstPos(xs, Dedup(xs)[i]) < FirstPos(xs, Dedup(xs)[j])
  {
    if |xs| > 0 {
      var init, x := xs[..|xs| - 1], xs[|xs| - 1];
      DedupOrdered(init);
      var d := Dedup(init);
      assert xs == init + [x];
      if x in d {
        OrderedKept(init, x, d);
      } else {
        OrderedAppended(init, x, d);
      }
    }
  }

  /** Order by first occurrence survives appending an element to the scanned list. */
  lemma OrderedKept<T>(init: seq<T>, x: T, d: seq<T>)
    requires forall y :: y in d ==> y in init
    requires forall i, j :: 0 <= i < j < |d| ==> FirstPos(init, d[i]) < FirstPos(init, d[j])
    ensures forall i, j :: 0 <= i < j < |d| ==> FirstPos(init + [x], d[i]) < FirstPos(init + [x], d[j])
  {
    forall y | y in d
      ensures FirstPos(init + [x], y) == FirstPos(init, y)
    {
      FirstPosPrefix(init, x, y);
    }
  }

  /** A value not seen before comes after all the others. */
  lemma OrderedAppended<T>(init: seq<T>, x: T, d: seq<T>)
    requires forall y :: y in d ==> y in init
    requires x !in init
    requires forall i, j :: 0 <= i < j < |d| ==> FirstPos(init, d[i]) < FirstPos(init, d[j])
    ensures forall i, j :: 0 <= i < j < |d + [x]| ==> FirstPos(init + [x], (d + [x])[i]) < FirstPos(init + [x], (d + [x])[j])
  {
    var xs, e := init + [x], d + [x];
    OrderedKept(init, x, d);
    assert FirstPos(xs, x) == |init| by {
      assert xs[..|init|] == init;
      FirstPosUnique(xs, x, |init|);
    }
    forall i, j | 0 <= i < j < |e|
      ensures FirstPos(xs, e[i]) < FirstPos(xs, e[j])
    {
      if j == |d| {
        assert e[i] == d[i] && d[i] in init;
        FirstPosPrefix(init, x, d[i]);
      }
    }
  }

  lemma FirstPosPrefix<T>(init: seq<T>, x: T, y: T)
    requires y in init
    ensures FirstPos(init + [x], y) == FirstPos(init, y)
  {
    var xs := init + [x];
    var q := FirstPos(init, y);
    assert xs[..q] == init[..q];
    FirstPosUnique(xs, y, q);
  }

  /** The first occurrence is the only position with the value and none before it. */
  lemma FirstPosUnique<T>(xs: seq<T>, y: T, q: nat)
    requires q < |xs| && xs[q] == y && y !in xs[..q]
    ensures FirstPos(xs, y) == q
  {
    var p := FirstPos(xs, y);
    assert forall k :: 0 <= k < q ==> xs[k] != y by {
      forall k | 0 <= k < q
        ensures xs[k] != y
      {
        assert xs[..q][k] == xs[k];
      }
    }
    assert forall k :: 0 <= k < p ==> xs[k] != y by {
      forall k | 0 <= k < p
        ensures xs[k] != y
      {
        assert xs[..p][k] == xs[k];
      }
    }
  }

  /** Array.prototype.flatMap: the results of `f` on the elements, concatenated in order. */
  function FlatMap<T, U>(f: T -> seq<U>, xs: seq<T>): seq<U>
  {
    if |xs| == 0 then [] else FlatMap(f, xs[..|xs| - 1]) + f(xs[|xs| - 1])
  }

  lemma FlatMapSnoc<T, U>(f: T -> seq<U>, xs: seq<T>, x: T)
    ensures FlatMap(f, xs + [x]) == FlatMap(f, xs) + f(x)
  {
    assert (xs + [x])[..|xs|] == xs;
  }

  /** The result is empty exactly when every element gives nothing. */
  lemma {:induction false} FlatMapEmpty<T, U>(f: T -> seq<U>, xs: seq<T>)
    ensures |FlatMap(f, xs)| == 0 <==> forall x :: x in xs ==> |f(x)| == 0
  {
    if |xs| > 0 {
      var init := xs[..|xs| - 1];
      FlatMapEmpty(f, init);
      assert xs == init + [xs[|xs| - 1]];
    }
  }

  /** No more results than elements when each element gives at most one. */
  lemma {:induction false} FlatMapLength<T, U>(f: T -> seq<U>, xs: seq<T>)
    requires forall x :: x in xs ==> |f(x)| <= 1
    ensures |FlatMap(f, xs)| <= |xs|
  {
    if |xs| > 0 {
      var init := xs[..|xs| - 1];
      assert forall x :: x in init ==> x in xs;
      FlatMapLength(f, init);
    }
  }
}
