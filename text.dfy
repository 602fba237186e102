/**
 The string operations of Qt's string class that the colour engine relies on, over
 `string` (a sequence of characters): printing a non-negative integer in decimal,
 `toInt` and `toDouble` on decimal text, removing every occurrence of a character,
 replacing every occurrence of a substring, and the ", "-separated field lists that
 colour literals are made of, with the splitting that recovers the fields.
 */
module Text {
  import opened Wrappers

  // ---------------------------------------------------------------- digits

  predicate IsDigit(c: char) {
    '0' <= c <= '9'
  }

  predicate AllDigits(s: string) {
    forall k :: 0 <= k < |s| ==> IsDigit(s[k])
  }

  function DigitChar(d: nat): (c: char)
    requires d < 10
    ensures IsDigit(c) && c as int - '0' as int == d
  {
    ('0' as int + d) as char
  }

  /** The value of a string of decimal digits, most significant first; 0 for "". */
  function DigitsValue(s: string): nat
    requires AllDigits(s)
    decreases |s|
  {
    if s == [] then 0 else 10 * DigitsValue(s[..|s| - 1]) + (s[|s| - 1] as int - '0' as int)
  }

  /** QString::number of a non-negative integer: its decimal digits, without leading zeros. */
  function NatText(n: nat): (s: string)
    ensures 0 < |s| && AllDigits(s)
    ensures s[0] == '0' ==> n == 0
    decreases n
  {
    if n < 10 then [DigitChar(n)] else NatText(n / 10) + [DigitChar(n % 10)]
  }

  /** Reading the digits NatText prints gives the number back. */
  lemma {:induction false} DigitsValueOfNatText(n: nat)
    ensures DigitsValue(NatText(n)) == n
    decreases n
  {
    if n >= 10 {
      var s := NatText(n);
      assert s[..|s| - 1] == NatText(n / 10);
      DigitsValueOfNatText(n / 10);
    }
  }

  /** QString::number of an integer: a '-' before the digits of a negative one. */
  function IntText(i: int): (s: string)
    ensures 0 < |s|
  {
    if i < 0 then "-" + NatText(-i) else NatText(i)
  }

  /** The two digits of a number below one hundred, with a leading zero. */
  function TwoDigits(n: nat): (s: string)
    requires n < 100
    ensures |s| == 2 && AllDigits(s) && DigitsValue(s) == n
  {
    var s := [DigitChar(n / 10), DigitChar(n % 10)];
    assert s[..1] == [DigitChar(n / 10)];
    assert s[..1][..0] == [];
    assert DigitsValue(s[..1]) == n / 10;
    assert DigitsValue(s) == 10 * (n / 10) + n % 10;
    s
  }

  // ---------------------------------------------------------------- toInt

  const Int32Min: int := -0x8000_0000
  const Int32Max: int := 0x7fff_ffff

  /** Splits an optional leading sign off the text of a number: (negative, rest). */
  function SignAndBody(s: string): (bool, string) {
    if 0 < |s| && (s[0] == '-' || s[0] == '+') then (s[0] == '-', s[1..]) else (false, s)
  }

  /**
   QString::toInt in base 10: an optional sign followed by at least one digit. Text of
   any other shape, or a value outside the 32-bit signed range, converts to 0 (the
   conversion failed).
   */
  function ToInt(s: string): (v: int)
    ensures Int32Min <= v <= Int32Max
    ensures (0 < |s| && AllDigits(s) && DigitsValue(s) <= Int32Max) ==> v == DigitsValue(s)
  {
    var (negative, body) := SignAndBody(s);
    if |body| == 0 || !AllDigits(body) then 0
    else
      var m: int := if negative then -(DigitsValue(body) as int) else DigitsValue(body);
      if Int32Min <= m <= Int32Max then m else 0
  }

  /** toInt reads back every number NatText prints, within the 32-bit range. */
  lemma ToIntOfNatText(n: nat)
    requires n <= Int32Max
    ensures ToInt(NatText(n)) == n
  {
    DigitsValueOfNatText(n);
  }

  /** toInt reads back every integer IntText prints, within the 32-bit range. */
  lemma ToIntOfIntText(i: int)
    requires Int32Min <= i <= Int32Max
    ensures ToInt(IntText(i)) == i
  {
    if i < 0 {
      DigitsValueOfNatText(-i);
      assert SignAndBody(IntText(i)) == (true, NatText(-i));
    } else {
      DigitsValueOfNatText(i);
      assert IsDigit(NatText(i)[0]);
    }
  }

  /** A C `int` result: the mathematical value reduced into the 32-bit two's-complement range. */
  function Wrap32(x: int): (r: int)
    ensures Int32Min <= r <= Int32Max
    ensures Int32Min <= x <= Int32Max ==> r == x
    ensures (r - x) % 0x1_0000_0000 == 0
  {
    (x - Int32Min) % 0x1_0000_0000 + Int32Min
  }

  /** C integer division, which truncates toward zero. */
  function CDiv(a: int, b: int): int
    requires 0 < b
  {
    if 0 <= a then a / b else -((-a) / b)
  }

  // ---------------------------------------------------------------- toDouble

  /** The index of the first '.', or |s| when there is none. */
  function DotIndex(s: string): (i: nat)
    ensures i <= |s|
    ensures forall k :: 0 <= k < i ==> s[k] != '.'
    ensures i < |s| ==> s[i] == '.'
    decreases |s|
  {
    if s == [] || s[0] == '.' then 0 else 1 + DotIndex(s[1..])
  }

  function Pow10(k: nat): (p: nat)
    ensures 0 < p
  {
    if k == 0 then 1 else 10 * Pow10(k - 1)
  }

  /** The value of a whole digit string and a fraction digit string written after a point. */
  function DecimalValue(whole: string, fraction: string): real
    requires AllDigits(whole) && AllDigits(fraction)
  {
    DigitsValue(whole) as real + DigitsValue(fraction) as real / Pow10(|fraction|) as real
  }

  /**
   The exact value of unsigned decimal text: digits, optionally a point and further
   digits, with at least one digit in all.
   */
  function UnsignedDecimal(s: string): Option<real> {
    var i := DotIndex(s);
    var whole := s[..i];
    var fraction := if i < |s| then s[i + 1..] else "";
    if AllDigits(whole) && AllDigits(fraction) && 0 < |whole| + |fraction| then
      Some(DecimalValue(whole, fraction))
    else
      None
  }

  /**
   QString::toDouble on plain decimal notation, read exactly: an optional sign and an
   unsigned decimal. Text of any other shape converts to 0.0 (the conversion failed).
   */
  function ToDouble(s: string): real {
    var (negative, body) := SignAndBody(s);
    match UnsignedDecimal(body)
    case Some(v) => if negative then -v else v
    case None => 0.0
  }

  /** A digit-led unsigned decimal converts to its value. */
  lemma ToDoubleOfUnsigned(body: string, v: real)
    requires 0 < |body| && IsDigit(body[0]) && UnsignedDecimal(body) == Some(v)
    ensures ToDouble(body) == v
  {
    assert SignAndBody(body) == (false, body);
  }

  /** A '-' before an unsigned decimal negates its value. */
  lemma ToDoubleOfNegated(body: string, v: real)
    requires UnsignedDecimal(body) == Some(v)
    ensures ToDouble("-" + body) == -v
  {
    assert ("-" + body)[1..] == body;
    assert SignAndBody("-" + body) == (true, body);
  }

  /** DotIndex passes over a prefix without '.'. */
  lemma {:induction false} DotIndexAfter(a: string, t: string)
    requires '.' !in a
    ensures DotIndex(a + t) == |a| + DotIndex(t)
    decreases |a|
  {
    if a != [] {
      assert (a + t)[0] == a[0];
      assert (a + t)[1..] == a[1..] + t;
      DotIndexAfter(a[1..], t);
    } else {
      assert a + t == t;
    }
  }

  lemma DigitsHaveNoDot(s: string)
    requires AllDigits(s)
    ensures '.' !in s
  {
    forall k | 0 <= k < |s| ensures s[k] != '.' {
      assert IsDigit(s[k]);
    }
  }

  /** toDouble reads back every number NatText prints. */
  lemma ToDoubleOfNatText(n: nat)
    ensures ToDouble(NatText(n)) == n as real
  {
    var s := NatText(n);
    DigitsHaveNoDot(s);
    DotIndexAfter(s, "");
    assert s + "" == s;
    assert s[..|s|] == s;
    assert UnsignedDecimal(s) == Some(DecimalValue(s, ""));
    DigitsValueOfNatText(n);
  }

  /** The exact value of digits, a point and digits. */
  lemma UnsignedDecimalOfPointed(whole: string, fraction: string)
    requires AllDigits(whole) && AllDigits(fraction) && 0 < |whole| + |fraction|
    ensures UnsignedDecimal(whole + "." + fraction)
            == Some(DecimalValue(whole, fraction))
  {
    var s := whole + "." + fraction;
    DigitsHaveNoDot(whole);
    DotIndexAfter(whole, "." + fraction);
    assert s == whole + ("." + fraction);
    assert DotIndex(s) == |whole|;
    assert s[..|whole|] == whole;
    assert s[|whole| + 1..] == fraction;
  }

  /** toDouble of digits, a point and digits is the whole part plus the scaled fraction. */
  lemma ToDoubleOfPointed(whole: string, fraction: string)
    requires 0 < |whole| && AllDigits(whole) && AllDigits(fraction)
    ensures ToDouble(whole + "." + fraction) == DecimalValue(whole, fraction)
  {
    var s := whole + "." + fraction;
    assert s[0] == whole[0] && IsDigit(whole[0]);
    assert SignAndBody(s) == (false, s);
    UnsignedDecimalOfPointed(whole, fraction);
  }

  // ---------------------------------------------------------------- editing

  /** QString::remove(c): the text with every occurrence of `c` taken out. */
  function RemoveAll(s: string, c: char): (r: string)
    ensures c !in r
    decreases |s|
  {
    if s == [] then [] else (if s[0] == c then [] else [s[0]]) + RemoveAll(s[1..], c)
  }

  /** Removing a character that does not occur changes nothing. */
  lemma {:induction false} RemoveAllAbsent(s: string, c: char)
    requires c !in s
    ensures RemoveAll(s, c) == s
    decreases |s|
  {
    if s != [] {
      assert c !in s[1..];
      RemoveAllAbsent(s[1..], c);
    }
  }

  /** Removing `c` from text that only ends with it drops exactly that last character. */
  lemma {:induction false} RemoveAllTrailing(s: string, c: char)
    requires c !in s
    ensures RemoveAll(s + [c], c) == s
    decreases |s|
  {
    if s == [] {
      assert RemoveAll([c], c) == [] + RemoveAll([], c);
    } else {
      assert (s + [c])[1..] == s[1..] + [c];
      assert c !in s[1..];
      RemoveAllTrailing(s[1..], c);
    }
  }

  /** QString::insert(i, c). */
  function Insert(s: string, i: nat, c: char): (r: string)
    requires i <= |s|
    ensures |r| == |s| + 1 && r[i] == c && r[..i] == s[..i] && r[i + 1..] == s[i..]
  {
    s[..i] + [c] + s[i..]
  }

  predicate StartsWith(s: string, p: string) {
    |p| <= |s| && s[..|p|] == p
  }

  /** QString::contains(p): `p` occurs somewhere in `s`. */
  predicate Contains(s: string, p: string)
    decreases |s|
  {
    StartsWith(s, p) || (0 < |s| && Contains(s[1..], p))
  }

  /** QString::replace(p, r): every occurrence of `p`, left to right, replaced by `r`. */
  function ReplaceAll(s: string, p: string, r: string): string
    requires 0 < |p|
    decreases |s|
  {
    if |s| < |p| then s
    else if StartsWith(s, p) then r + ReplaceAll(s[|p|..], p, r)
    else [s[0]] + ReplaceAll(s[1..], p, r)
  }

  /** Replacing a pattern that starts with '.' leaves text without '.' as it is. */
  lemma {:induction false} ReplaceAllWithoutDot(s: string, p: string, r: string)
    requires 0 < |p| && p[0] == '.' && '.' !in s
    ensures ReplaceAll(s, p, r) == s && !Contains(s, p)
    decreases |s|
  {
    if 0 < |s| {
      assert s[0] != '.';
      assert '.' !in s[1..];
      ReplaceAllWithoutDot(s[1..], p, r);
    }
  }

  /** Replacing a pattern that starts with '.' passes over a dot-free prefix unchanged. */
  lemma {:induction false} ReplaceAllAfterDotFree(a: string, t: string, p: string, r: string)
    requires 0 < |p| && p[0] == '.' && '.' !in a
    ensures ReplaceAll(a + t, p, r) == a + ReplaceAll(t, p, r)
    ensures Contains(a + t, p) <==> Contains(t, p)
    decreases |a|
  {
    if a != [] {
      var s := a + t;
      assert s[0] == a[0] && s[0] != '.';
      assert !StartsWith(s, p);
      assert s[1..] == a[1..] + t;
      assert '.' !in a[1..];
      ReplaceAllAfterDotFree(a[1..], t, p, r);
      if |s| < |p| {
        ReplaceAllWithoutDotPrefix(a, t, p);
      }
    } else {
      assert a + t == t;
    }
  }

  /** Text shorter than a dot-led pattern, made of a dot-free prefix, leaves the tail shorter too. */
  lemma ReplaceAllWithoutDotPrefix(a: string, t: string, p: string)
    requires 0 < |p| && |a + t| < |p|
    ensures |t| < |p|
  {
  }

  // ---------------------------------------------------------------- fields

  predicate NoComma(s: string) {
    forall k :: 0 <= k < |s| ==> s[k] != ','
  }

  /** The fields joined with ", ", as the serialisers concatenate them. */
  function Join(fields: seq<string>): string
    decreases |fields|
  {
    if |fields| == 0 then ""
    else if |fields| == 1 then fields[0]
    else fields[0] + ", " + Join(fields[1..])
  }

  /** The index of the first ',', or |s| when there is none. */
  function CommaIndex(s: string): (i: nat)
    ensures i <= |s|
    ensures forall k :: 0 <= k < i ==> s[k] != ','
    ensures i < |s| ==> s[i] == ','
    decreases |s|
  {
    if s == [] || s[0] == ',' then 0 else 1 + CommaIndex(s[1..])
  }

  /**
   The fields of a ", "-separated list: the text up to each ',' with the one character
   after the comma dropped, as the capture groups of a colour pattern deliver them.
   */
  function Split(s: string): (r: seq<string>)
    ensures 0 < |r|
    decreases |s|
  {
    var i := CommaIndex(s);
    if i == |s| then [s] else [s[..i]] + Split(s[if i + 2 <= |s| then i + 2 else |s|..])
  }

  /** CommaIndex passes over a prefix without ','. */
  lemma {:induction false} CommaIndexAfter(a: string, t: string)
    requires NoComma(a)
    ensures CommaIndex(a + t) == |a| + CommaIndex(t)
    decreases |a|
  {
    if a != [] {
      assert (a + t)[0] == a[0];
      assert (a + t)[1..] == a[1..] + t;
      assert NoComma(a[1..]) by {
        forall k | 0 <= k < |a[1..]| ensures a[1..][k] != ',' {
          assert a[1..][k] == a[k + 1];
        }
      }
      CommaIndexAfter(a[1..], t);
    } else {
      assert a + t == t;
    }
  }

  /** Splitting a comma-free field followed by ", " splits off that field. */
  lemma SplitField(head: string, rest: string)
    requires NoComma(head)
    ensures Split(head + ", " + rest) == [head] + Split(rest)
  {
    var s := head + ", " + rest;
    assert s == head + (", " + rest);
    CommaIndexAfter(head, ", " + rest);
    assert CommaIndex(s) == |head|;
    assert s[..|head|] == head;
    assert s[|head| + 2..] == rest;
  }

  /** A comma-free text is a single field. */
  lemma SplitNoComma(s: string)
    requires NoComma(s)
    ensures Split(s) == [s]
  {
    CommaIndexAfter(s, "");
    assert s + "" == s;
  }

  /** Splitting joined comma-free fields gives the fields back. */
  lemma {:induction false} SplitJoin(fields: seq<string>)
    requires 0 < |fields|
    requires forall k :: 0 <= k < |fields| ==> NoComma(fields[k])
    ensures Split(Join(fields)) == fields
    decreases |fields|
  {
    var head := fields[0];
    assert NoComma(head);
    if |fields| == 1 {
      SplitNoComma(head);
    } else {
      var tail := fields[1..];
      assert Join(fields) == head + ", " + Join(tail);
      forall k | 0 <= k < |tail| ensures NoComma(tail[k]) {
        assert tail[k] == fields[k + 1];
      }
      SplitJoin(tail);
      SplitField(head, Join(tail));
      assert fields == [head] + tail;
    }
  }

  /** Digit strings hold no comma. */
  lemma DigitsHaveNoComma(s: string)
    requires AllDigits(s)
    ensures NoComma(s)
  {
    forall k | 0 <= k < |s| ensures s[k] != ',' {
      assert IsDigit(s[k]);
    }
  }

  // ---------------------------------------------------------------- hexadecimal

  function HexDigitUpper(d: nat): char
    requires d < 16
  {
    if d < 10 then ('0' as int + d) as char else ('A' as int + d - 10) as char
  }

  function HexDigitLower(d: nat): char
    requires d < 16
  {
    if d < 10 then ('0' as int + d) as char else ('a' as int + d - 10) as char
  }

  /** The value of a hexadecimal digit in either case. */
  function HexDigitValue(c: char): (v: Option<nat>)
    ensures v.Some? ==> v.value < 16
  {
    if '0' <= c <= '9' then Some(c as int - '0' as int)
    else if 'A' <= c <= 'F' then Some(c as int - 'A' as int + 10)
    else if 'a' <= c <= 'f' then Some(c as int - 'a' as int + 10)
    else None
  }

  /** The value of two hexadecimal digits, high digit first. */
  function HexPairValue(hi: char, lo: char): (v: Option<nat>)
    ensures v.Some? ==> v.value < 256
  {
    match (HexDigitValue(hi), HexDigitValue(lo))
    case (Some(h), Some(l)) => Some(16 * h + l)
    case _ => None
  }

  /** The two upper-case digits of `printf("%02x")` after QString::toUpper. */
  function HexByteUpper(b: nat): (s: string)
    requires b < 256
    ensures |s| == 2 && HexPairValue(s[0], s[1]) == Some(b)
  {
    [HexDigitUpper(b / 16), HexDigitUpper(b % 16)]
  }

  /** The two lower-case digits of `%02x`. */
  function HexByteLower(b: nat): (s: string)
    requires b < 256
    ensures |s| == 2 && HexPairValue(s[0], s[1]) == Some(b)
  {
    [HexDigitLower(b / 16), HexDigitLower(b % 16)]
  }
}
