/**
 * The option parsers of AppLogic/Config/ParsingHelpers.cs, with the regex of
 * each written out as a scanner, and the library conversions it relies on
 * (Convert.ToInt32 in base 16 and 10, Boolean.TryParse, int.TryParse).
 *
 * The patterns `^\s*(body)\s*$` admit a body with no white space in it, so
 * they match exactly when the trimmed text is a body; the scanners work on
 * TextTransforms.Trim(text).  Digits and letters are ASCII.
 */
module ConfigParsing {
  import opened Wrappers
  import opened Faults
  import opened TextTransforms
  import opened MachineInts

  /** A Try-method's pair of return value and out-value. */
  datatype Parsed<T> = Parsed(success: bool, value: T)

  const MinusMessage := "String cannot contain a minus sign if the base is not 10."
  const OverflowMessage := "Value was either too large or too small for an Int32."
  /** Convert.ToInt32 in any base but 10 reads the digits as an unsigned 32-bit value, and says so when they overflow. */
  const HexOverflowMessage := "Value was either too large or too small for a UInt32."

  predicate IsDecDigit(c: char) { '0' <= c <= '9' }
  predicate IsHexDigit(c: char) { IsDecDigit(c) || 'a' <= c <= 'f' || 'A' <= c <= 'F' }
  predicate IsAsciiLetter(c: char) { 'a' <= c <= 'z' || 'A' <= c <= 'Z' }

  function DigitValue(c: char): (d: nat)
    requires IsHexDigit(c)
    ensures d < 16
    ensures IsDecDigit(c) ==> d < 10
  {
    if IsDecDigit(c) then c as int - '0' as int
    else if 'a' <= c <= 'f' then c as int - 'a' as int + 10
    else c as int - 'A' as int + 10
  }

  predicate AllDigits(s: string, base: nat)
  {
    forall i :: 0 <= i < |s| ==> if base == 16 then IsHexDigit(s[i]) else IsDecDigit(s[i])
  }

  /** The value of a run of digits, most significant first. */
  function DigitsValue(s: string, base: nat): nat
    requires base == 10 || base == 16
    requires AllDigits(s, base)
    decreases |s|
  {
    if |s| == 0 then 0
    else DigitsValue(s[..|s| - 1], base) * base + DigitValue(s[|s| - 1])
  }

  /** `-?` followed by one or more digits. */
  predicate IsSignedDigits(s: string, base: nat)
  {
    |s| > 0 && if s[0] == '-' then |s| >= 2 && AllDigits(s[1..], base) else AllDigits(s, base)
  }

  /**
   * Convert.ToInt32(s, 16): a minus sign is an ArgumentException, a value
   * above 0xFFFFFFFF an OverflowException, anything else the 32-bit pattern
   * read as a signed int.
   */
  function ConvertHex(s: string): (r: Result<int, Exc>)
    requires IsSignedDigits(s, 16)
    ensures r.Failure? <==> s[0] == '-' || DigitsValue(s, 16) > 0xFFFF_FFFF
    ensures s[0] == '-' ==> r == Failure(Leaf(Argument, MinusMessage))
    ensures s[0] != '-' && r.Failure? ==> r == Failure(Leaf(Overflow, HexOverflowMessage))
    ensures r.Success? ==> r.value == Wrap32(DigitsValue(s, 16))
  {
    if s[0] == '-' then Failure(Leaf(Argument, MinusMessage))
    else
      var v := DigitsValue(s, 16);
      if v > 0xFFFF_FFFF then Failure(Leaf(Overflow, HexOverflowMessage))
      else Success(if v > Int32Max then v - 0x1_0000_0000 else v)
  }

  /** The value of an optionally signed decimal run. */
  function SignedValue(s: string): int
    requires IsSignedDigits(s, 10)
  {
    if s[0] == '-' then 0 - DigitsValue(s[1..], 10) else DigitsValue(s, 10)
  }

  /** Convert.ToInt32(s, 10): an OverflowException outside the int range. */
  function ConvertDec(s: string): (r: Result<int, Exc>)
    requires IsSignedDigits(s, 10)
    ensures r.Failure? <==> !(Int32Min <= SignedValue(s) <= Int32Max)
    ensures r.Success? ==> r.value == SignedValue(s)
  {
    var v := SignedValue(s);
    if Int32Min <= v <= Int32Max then Success(v) else Failure(Leaf(Overflow, OverflowMessage))
  }

  /** The `0x(?<hex>-?[0-9A-F]+)` alternative, case-insensitively. */
  predicate IsHexBody(b: string)
  {
    |b| >= 2 && b[0] == '0' && (b[1] == 'x' || b[1] == 'X') && IsSignedDigits(b[2..], 16)
  }

  function AsParsed(r: Result<int, Exc>): Result<Parsed<int>, Exc>
  {
    if r.Success? then Success(Parsed(true, r.value)) else Failure(r.error)
  }

  /** TryParseHexOrDec: hex after `0x`, else a signed decimal, else no match with 0; the conversion may throw. */
  function TryParseHexOrDec(text: string): (r: Result<Parsed<int>, Exc>)
    ensures r.Success? && r.value.success ==> Int32Min <= r.value.value <= Int32Max
    ensures r.Success? && !r.value.success ==> r.value.value == 0
    ensures r.Failure? ==> r.error.Leaf? && r.error.kind in {Argument, Overflow}
    ensures r == Success(Parsed(false, 0)) <==> !IsHexBody(Trim(text)) && !IsSignedDigits(Trim(text), 10)
  {
    var b := Trim(text);
    if IsHexBody(b) then AsParsed(ConvertHex(b[2..]))
    else if IsSignedDigits(b, 10) then AsParsed(ConvertDec(b))
    else Success(Parsed(false, 0))
  }

  /** The `'(?<char>[0-9A-Z])'` alternative, case-insensitively. */
  predicate IsCharBody(b: string)
  {
    |b| == 3 && b[0] == '\'' && b[2] == '\'' && (IsDecDigit(b[1]) || IsAsciiLetter(b[1]))
  }

  function ToUpper(c: char): char
  {
    if 'a' <= c <= 'z' then (c as int - 32) as char else c
  }

  /** TryParseHexOrDecOrChar: as TryParseHexOrDec, plus a quoted digit or letter giving its upper-case code. */
  function TryParseHexOrDecOrChar(text: string): (r: Result<Parsed<int>, Exc>)
    ensures r.Success? && !r.value.success ==> r.value.value == 0
  {
    var b := Trim(text);
    if IsHexBody(b) then AsParsed(ConvertHex(b[2..]))
    else if IsSignedDigits(b, 10) then AsParsed(ConvertDec(b))
    else if IsCharBody(b) then Success(Parsed(true, ToUpper(b[1]) as int))
    else Success(Parsed(false, 0))
  }

  /** The character form only adds to the numeric forms: where those match, the result is the same. */
  lemma CharFormExtendsHexOrDec(text: string)
    ensures TryParseHexOrDec(text) != Success(Parsed(false, 0)) ==>
              TryParseHexOrDecOrChar(text) == TryParseHexOrDec(text)
    ensures TryParseHexOrDec(text) == Success(Parsed(false, 0)) ==>
              (TryParseHexOrDecOrChar(text).value.success <==> IsCharBody(Trim(text)))
  {
    var b := Trim(text);
    if !IsHexBody(b) && !IsSignedDigits(b, 10) {
      assert TryParseHexOrDec(text) == Success(Parsed(false, 0));
    }
  }

  // ---------------------------------------------------------------------------
  // Printing, for round trips
  // ---------------------------------------------------------------------------

  function DigitChar(d: nat): (c: char)
    requires d < 16
    ensures IsHexDigit(c) && DigitValue(c) == d
    ensures d < 10 ==> IsDecDigit(c)
  {
    if d < 10 then ('0' as int + d) as char else ('A' as int + d - 10) as char
  }

  /** The digits of `n` in base 10 or 16, most significant first, without leading zeros. */
  function Digits(n: nat, base: nat): (s: string)
    requires base == 10 || base == 16
    ensures |s| > 0 && AllDigits(s, base)
    ensures forall i :: 0 <= i < |s| ==> s[i] != '-' && !IsWhiteSpace(s[i])
    decreases n
  {
    if n < base then [DigitChar(n)]
    else Digits(n / base, base) + [DigitChar(n % base)]
  }

  lemma {:induction false} DigitsValueOfDigits(n: nat, base: nat)
    requires base == 10 || base == 16
    ensures DigitsValue(Digits(n, base), base) == n
    decreases n
  {
    if n >= base {
      var s := Digits(n, base);
      DigitsValueOfDigits(n / base, base);
      assert s[..|s| - 1] == Digits(n / base, base);
    }
  }

  /** A text whose ends are not white space is its own trim, whatever white space pads it. */
  lemma TrimOfPadded(pre: string, s: string, post: string)
    requires |s| > 0 && !IsWhiteSpace(s[0]) && !IsWhiteSpace(s[|s| - 1])
    requires forall i :: 0 <= i < |pre| ==> IsWhiteSpace(pre[i])
    requires forall i :: 0 <= i < |post| ==> IsWhiteSpace(post[i])
    ensures Trim(pre + s + post) == s
  {
    var t := pre + s + post;
    forall k | 0 <= k < |pre|
      ensures IsWhiteSpace(t[k])
    {
      assert t[k] == pre[k];
    }
    forall k | |pre| + |s| <= k < |t|
      ensures IsWhiteSpace(t[k])
    {
      assert t[k] == post[k - |pre| - |s|];
    }
    assert t[|pre|] == s[0];
    assert t[|pre| + |s| - 1] == s[|s| - 1];
    var i := TrimOffset(t);
    assert i == |pre|;
    var j := TrimEndOffset(t, i);
    assert j == |pre| + |s|;
    assert t[i..j] == s;
  }

  lemma TrimOfSolid(s: string)
    requires |s| > 0 && !IsWhiteSpace(s[0]) && !IsWhiteSpace(s[|s| - 1])
    ensures Trim(s) == s
  {
    TrimOfPadded("", s, "");
    assert "" + s + "" == s;
  }

  /** `0x` and the upper-case hex digits of any 32-bit pattern read back as that pattern, as a signed int. */
  lemma HexRoundTrip(n: nat)
    requires n <= 0xFFFF_FFFF
    ensures TryParseHexOrDec("0x" + Digits(n, 16)) == Success(Parsed(true, Wrap32(n)))
  {
    HexForm(n);
  }

  lemma HexForm(n: nat)
    ensures var t := "0x" + Digits(n, 16);
            Trim(t) == t && IsHexBody(t) && t[2..] == Digits(n, 16) && DigitsValue(t[2..], 16) == n
  {
    var t := "0x" + Digits(n, 16);
    DigitsValueOfDigits(n, 16);
    TrimOfSolid(t);
    assert t[2..] == Digits(n, 16);
  }

  /** A hex value wider than 32 bits is an OverflowException. */
  lemma HexOverflow(n: nat)
    requires n > 0xFFFF_FFFF
    ensures TryParseHexOrDec("0x" + Digits(n, 16)) == Failure(Leaf(Overflow, HexOverflowMessage))
  {
    HexForm(n);
  }

  /** A minus sign after `0x` matches the pattern and is an ArgumentException. */
  lemma HexMinus(n: nat)
    ensures TryParseHexOrDec("0x-" + Digits(n, 16)) == Failure(Leaf(Argument, MinusMessage))
  {
    HexMinusForm(Digits(n, 16));
  }

  lemma HexMinusForm(d: string)
    requires |d| > 0 && AllDigits(d, 16) && !IsWhiteSpace(d[|d| - 1])
    ensures var t := "0x-" + d;
            Trim(t) == t && IsHexBody(t) && t[2..][0] == '-'
  {
    var t := "0x-" + d;
    TrimOfSolid(t);
    assert t[2..] == "-" + d;
    assert ("-" + d)[1..] == d;
  }

  /** The decimal form of an integer, as ToString() prints it. */
  function DecimalString(n: int): (s: string)
    ensures |s| > 0 && !IsWhiteSpace(s[0]) && !IsWhiteSpace(s[|s| - 1])
    ensures IsSignedDigits(s, 10) && SignedValue(s) == n
    ensures s[0] != '+' && !IsNumberWhite(s[0]) && !IsNumberWhite(s[|s| - 1])
  {
    if n < 0 then
      var d := Digits(-n, 10);
      DigitsValueOfDigits(-n, 10);
      assert ("-" + d)[1..] == d;
      "-" + d
    else
      DigitsValueOfDigits(n, 10);
      Digits(n, 10)
  }

  lemma DecForm(n: int)
    ensures var t := DecimalString(n);
            Trim(t) == t && !IsHexBody(t)
  {
    var t := DecimalString(n);
    TrimOfSolid(t);
    if |t| >= 2 {
      assert t[1] != 'x' && t[1] != 'X';
    }
  }

  /** Every int's decimal form parses back to it. */
  lemma DecRoundTrip(n: int)
    requires Int32Min <= n <= Int32Max
    ensures TryParseHexOrDec(DecimalString(n)) == Success(Parsed(true, n))
  {
    DecForm(n);
  }

  /** A decimal outside the int range matches the pattern and is an OverflowException. */
  lemma DecOverflow(n: int)
    requires !(Int32Min <= n <= Int32Max)
    ensures TryParseHexOrDec(DecimalString(n)) == Failure(Leaf(Overflow, OverflowMessage))
  {
    DecForm(n);
  }

  /** A quoted letter gives the code of its upper-case form: 'a' gives 65. */
  lemma QuotedCharacter(c: char)
    requires IsDecDigit(c) || IsAsciiLetter(c)
    ensures TryParseHexOrDecOrChar(['\'', c, '\'']) == Success(Parsed(true, ToUpper(c) as int))
    ensures c == 'a' ==> TryParseHexOrDecOrChar(['\'', c, '\'']) == Success(Parsed(true, 65))
  {
    var t := ['\'', c, '\''];
    TrimOfPadded("", t, "");
    assert "" + t + "" == t;
    assert !IsSignedDigits(t, 10) by {
      assert !IsDecDigit(t[0]);
    }
  }

  // ---------------------------------------------------------------------------
  // Booleans
  // ---------------------------------------------------------------------------

  function ToLowerAscii(s: string): (r: string)
    ensures |r| == |s|
    decreases |s|
  {
    if |s| == 0 then "" else [LowerChar(s[0])] + ToLowerAscii(s[1..])
  }

  function LowerChar(c: char): char
  {
    if 'A' <= c <= 'Z' then (c as int + 32) as char else c
  }

  /**
   * TryParseBool: `true` or `false` in any case, padded with white space;
   * Boolean.TryParse always accepts what the pattern matched.  No match is
   * false with false.
   */
  function TryParseBool(text: string): (r: Parsed<bool>)
    ensures r.success <==> ToLowerAscii(Trim(text)) == "true" || ToLowerAscii(Trim(text)) == "false"
    ensures r.value <==> ToLowerAscii(Trim(text)) == "true"
  {
    var b := ToLowerAscii(Trim(text));
    if b == "true" then Parsed(true, true)
    else if b == "false" then Parsed(true, false)
    else Parsed(false, false)
  }

  lemma LowerTrue()
    ensures ToLowerAscii("True") == "true"
  {
    assert LowerChar('T') == 't' && LowerChar('r') == 'r' && LowerChar('u') == 'u' && LowerChar('e') == 'e';
    assert "True"[1..] == "rue" && "rue"[1..] == "ue" && "ue"[1..] == "e" && "e"[1..] == "";
  }

  lemma LowerFalse()
    ensures ToLowerAscii("False") == "false"
  {
    assert LowerChar('F') == 'f' && LowerChar('a') == 'a' && LowerChar('l') == 'l' && LowerChar('s') == 's' && LowerChar('e') == 'e';
    assert "False"[1..] == "alse" && "alse"[1..] == "lse" && "lse"[1..] == "se" && "se"[1..] == "e" && "e"[1..] == "";
  }

  /** bool.ToString() ("True" / "False"), padded with any white space, reads back as that bool. */
  lemma BoolRoundTrip(v: bool, pre: string, post: string)
    requires forall i :: 0 <= i < |pre| ==> IsWhiteSpace(pre[i])
    requires forall i :: 0 <= i < |post| ==> IsWhiteSpace(post[i])
    ensures TryParseBool(pre + (if v then "True" else "False") + post) == Parsed(true, v)
  {
    var s := if v then "True" else "False";
    TrimOfPadded(pre, s, post);
    LowerTrue();
    LowerFalse();
  }

  // ---------------------------------------------------------------------------
  // int.TryParse
  // ---------------------------------------------------------------------------

  /** The white space NumberStyles.Integer allows around a number. */
  predicate IsNumberWhite(c: char)
  {
    9 <= c as int <= 13 || c == ' '
  }

  function LeadingWhite(s: string): (n: nat)
    ensures n <= |s|
    ensures forall i :: 0 <= i < n ==> IsNumberWhite(s[i])
    ensures n < |s| ==> !IsNumberWhite(s[n])
    decreases |s|
  {
    if |s| > 0 && IsNumberWhite(s[0]) then 1 + LeadingWhite(s[1..]) else 0
  }

  function TrailingWhite(s: string): (n: nat)
    ensures n <= |s|
    ensures forall i :: |s| - n <= i < |s| ==> IsNumberWhite(s[i])
    decreases |s|
  {
    if |s| > 0 && IsNumberWhite(s[|s| - 1]) then 1 + TrailingWhite(s[..|s| - 1]) else 0
  }

  lemma {:induction false} TrailingWhiteOf(x: string, y: string)
    requires |x| > 0 && !IsNumberWhite(x[|x| - 1])
    requires forall i :: 0 <= i < |y| ==> IsNumberWhite(y[i])
    ensures TrailingWhite(x + y) == |y|
    decreases |y|
  {
    var t := x + y;
    if |y| == 0 {
      assert t == x;
    } else {
      assert t[|t| - 1] == y[|y| - 1];
      assert t[..|t| - 1] == x + y[..|y| - 1];
      TrailingWhiteOf(x, y[..|y| - 1]);
    }
  }

  /** An optional `+` or `-` and at least one decimal digit. */
  predicate IsIntegerBody(b: string)
  {
    |b| > 0 && if b[0] == '-' || b[0] == '+' then |b| >= 2 && AllDigits(b[1..], 10) else AllDigits(b, 10)
  }

  function IntegerValue(b: string): int
    requires IsIntegerBody(b)
  {
    if b[0] == '-' then 0 - DigitsValue(b[1..], 10)
    else if b[0] == '+' then DigitsValue(b[1..], 10)
    else DigitsValue(b, 10)
  }

  /** int.TryParse with NumberStyles.Integer: white space, a sign, digits, white space; an overflow is a failure. */
  function IntTryParse(text: string): (r: Parsed<int>)
    ensures r.success ==> Int32Min <= r.value <= Int32Max
    ensures !r.success ==> r.value == 0
  {
    var lo := LeadingWhite(text);
    var rest := text[lo..];
    var b := rest[..|rest| - TrailingWhite(rest)];
    if IsIntegerBody(b) && Int32Min <= IntegerValue(b) <= Int32Max then Parsed(true, IntegerValue(b))
    else Parsed(false, 0)
  }

  lemma IntForm(n: int, pre: string, post: string)
    requires forall i :: 0 <= i < |pre| ==> IsNumberWhite(pre[i])
    requires forall i :: 0 <= i < |post| ==> IsNumberWhite(post[i])
    ensures var t := pre + DecimalString(n) + post;
            var rest := t[LeadingWhite(t)..];
            rest[..|rest| - TrailingWhite(rest)] == DecimalString(n)
  {
    var d := DecimalString(n);
    var t := pre + d + post;
    forall k | 0 <= k < |pre|
      ensures IsNumberWhite(t[k])
    {
      assert t[k] == pre[k];
    }
    assert t[|pre|] == d[0];
    var lo := LeadingWhite(t);
    assert lo == |pre|;
    var rest := t[lo..];
    assert rest == d + post;
    forall k | |d| <= k < |rest|
      ensures IsNumberWhite(rest[k])
    {
      assert rest[k] == post[k - |d|];
    }
    TrailingWhiteOf(d, post);
    assert TrailingWhite(rest) == |post|;
    assert rest[..|d|] == d;
  }

  /** Every int's decimal form, padded with number white space, parses back to it. */
  lemma IntTryParseRoundTrip(n: int, pre: string, post: string)
    requires Int32Min <= n <= Int32Max
    requires forall i :: 0 <= i < |pre| ==> IsNumberWhite(pre[i])
    requires forall i :: 0 <= i < |post| ==> IsNumberWhite(post[i])
    ensures IntTryParse(pre + DecimalString(n) + post) == Parsed(true, n)
  {
    IntForm(n, pre, post);
    DecimalIntegerBody(n);
  }

  /** An integer outside the int range is a failure, not an exception. */
  lemma IntTryParseRejectsOverflow(n: int)
    requires !(Int32Min <= n <= Int32Max)
    ensures IntTryParse(DecimalString(n)) == Parsed(false, 0)
  {
    UnpaddedIntForm(n);
    DecimalIntegerBody(n);
  }

  lemma UnpaddedIntForm(n: int)
    ensures var t := DecimalString(n);
            var rest := t[LeadingWhite(t)..];
            rest[..|rest| - TrailingWhite(rest)] == t
  {
    IntForm(n, "", "");
    assert "" + DecimalString(n) + "" == DecimalString(n);
  }

  /** The decimal form is an integer body, with the value it prints. */
  lemma DecimalIntegerBody(n: int)
    ensures IsIntegerBody(DecimalString(n)) && IntegerValue(DecimalString(n)) == n
  {
  }

  // ---------------------------------------------------------------------------
  // Key-value pairs
  // ---------------------------------------------------------------------------

  /** A key that the pattern reads literally: letters, digits, `_` and `-`. */
  predicate PlainKey(key: string)
  {
    |key| > 0 && forall i :: 0 <= i < |key| ==> IsAsciiLetter(key[i]) || IsDecDigit(key[i]) || key[i] == '_' || key[i] == '-'
  }

  /** The length of the run of white space starting at `p`. */
  function WsRun(text: string, p: nat): (n: nat)
    requires p <= |text|
    ensures p + n <= |text|
    ensures forall i :: p <= i < p + n ==> IsWhiteSpace(text[i])
    ensures p + n < |text| ==> !IsWhiteSpace(text[p + n])
    decreases |text| - p
  {
    if p < |text| && IsWhiteSpace(text[p]) then 1 + WsRun(text, p + 1) else 0
  }

  /** `\s*(;|$)` matches at `e`: after the white space comes a `;` or the end. */
  predicate TailOk(text: string, e: nat)
    requires e <= |text|
  {
    var f := e + WsRun(text, e);
    f == |text| || text[f] == ';'
  }

  /** Where the lazy `.+?` stops: the first position from `e` at which the tail matches. */
  function FirstEnd(text: string, e: nat): (r: nat)
    requires e <= |text|
    ensures e <= r <= |text| && TailOk(text, r)
    ensures forall m :: e <= m < r ==> !TailOk(text, m)
    decreases |text| - e
  {
    if TailOk(text, e) then e else FirstEnd(text, e + 1)
  }

  /** `\s*(key)\s*:` from `c`: the position after the colon, if the key part matches. */
  function AfterKey(text: string, key: string, c: nat): (r: Option<nat>)
    requires c <= |text|
    ensures r.Some? ==> r.value <= |text|
  {
    var i := c + WsRun(text, c);
    if !(i + |key| <= |text| && text[i..i + |key|] == key) then None
    else
      var j := i + |key|;
      var k := j + WsRun(text, j);
      if k >= |text| || text[k] != ':' then None
      else Some(k + 1)
  }

  /**
   * `\s*(?<value>.+?)\s*(;|$)` from `q`: the value runs from the first
   * character that is not white space to the first place where white space
   * and `;` or the end follow.  If only white space is left, `\s*` gives
   * back its last character to the value.
   */
  function ValueFrom(text: string, q: nat): (r: Option<string>)
    requires q <= |text|
    ensures r.Some? ==> |r.value| > 0
    ensures r.Some? ==> forall i :: 1 <= i < |r.value| ==> r.value[i] != ';'
    ensures r.Some? && |r.value| > 1 ==> !IsWhiteSpace(r.value[|r.value| - 1])
  {
    var w := WsRun(text, q);
    var v := q + w;
    if v < |text| then
      var e := FirstEnd(text, v + 1);
      ValueShape(text, v, e);
      Some(text[v..e])
    else if w >= 1 then Some(text[v - 1..v])
    else None
  }

  /** The pattern after `(^|;)`, with the match content starting at `c`. */
  function MatchAt(text: string, key: string, c: nat): (r: Option<string>)
    requires c <= |text|
    ensures r.Some? ==> |r.value| > 0
    ensures r.Some? ==> forall i :: 1 <= i < |r.value| ==> r.value[i] != ';'
    ensures r.Some? && |r.value| > 1 ==> !IsWhiteSpace(r.value[|r.value| - 1])
  {
    var q := AfterKey(text, key, c);
    if q.None? then None else ValueFrom(text, q.value)
  }

  /** The value a lazy match yields has no `;` after its first character and does not end in white space. */
  lemma ValueShape(text: string, v: nat, e: nat)
    requires v < e <= |text| && e == FirstEnd(text, v + 1)
    ensures forall i :: v + 1 <= i < e ==> text[i] != ';'
    ensures e - v > 1 ==> !IsWhiteSpace(text[e - 1])
  {
    forall i | v + 1 <= i < e
      ensures text[i] != ';'
    {
      assert !TailOk(text, i);
    }
    if e - v > 1 && IsWhiteSpace(text[e - 1]) {
      assert WsRun(text, e - 1) == 1 + WsRun(text, e);
      assert TailOk(text, e - 1);
      assert false;
    }
  }

  /** The later match starts: after each `;`, left to right. */
  function Search(text: string, key: string, p: nat): (r: Option<string>)
    requires p <= |text|
    ensures r.Some? ==> |r.value| > 0
    ensures r.Some? ==> forall i :: 1 <= i < |r.value| ==> r.value[i] != ';'
    ensures r.Some? && |r.value| > 1 ==> !IsWhiteSpace(r.value[|r.value| - 1])
    decreases |text| - p
  {
    if p >= |text| then None
    else if text[p] == ';' && MatchAt(text, key, p + 1).Some? then MatchAt(text, key, p + 1)
    else Search(text, key, p + 1)
  }

  /**
   * TryParseKeyValue: the first `key : value` at the start or after a `;`;
   * the value is what the lazy group captured, and "" with false when there
   * is no match.
   */
  function TryParseKeyValue(text: string, key: string): (r: Parsed<string>)
    requires PlainKey(key)
    ensures !r.success ==> r.value == ""
    ensures r.success ==> |r.value| > 0 && forall i :: 1 <= i < |r.value| ==> r.value[i] != ';'
    ensures r.success && |r.value| > 1 ==> !IsWhiteSpace(r.value[|r.value| - 1])
  {
    var first := MatchAt(text, key, 0);
    var found := if first.Some? then first else Search(text, key, 0);
    if found.Some? then Parsed(true, found.value) else Parsed(false, "")
  }

  /** WsRun is zero in front of a character that is not white space. */
  lemma WsRunAtSolid(text: string, p: nat)
    requires p < |text| && !IsWhiteSpace(text[p])
    ensures WsRun(text, p) == 0
  {
  }

  /** A key at the start is recognised, whatever follows its colon. */
  lemma KeyAtStart(key: string, rest: string)
    requires PlainKey(key)
    ensures AfterKey(key + ":" + rest, key, 0) == Some(|key| + 1)
  {
    var text := key + ":" + rest;
    var n := |key|;
    assert text[0] == key[0];
    WsRunAtSolid(text, 0);
    assert text[0..n] == key;
    assert text[n] == ':';
    WsRunAtSolid(text, n);
  }

  /** After the colon, one space and a value without `;` or white space at its ends, then `;`: the value. */
  lemma ValueBeforeSemicolon(key: string, value: string)
    requires |value| > 0 && !IsWhiteSpace(value[0]) && !IsWhiteSpace(value[|value| - 1])
    requires forall i :: 0 <= i < |value| ==> value[i] != ';'
    ensures ValueFrom(key + ":" + " " + value + ";", |key| + 1) == Some(value)
  {
    var text := key + ":" + " " + value + ";";
    var n := |key|;
    var v := n + 2;
    var last := |text| - 1;
    assert text[n + 1] == ' ';
    assert text[v] == value[0];
    WsRunAtSolid(text, v);
    assert WsRun(text, n + 1) == 1;
    assert text[last] == ';';
    WsRunAtSolid(text, last);
    assert text[last - 1] == value[|value| - 1];
    forall m | v + 1 <= m < last
      ensures !TailOk(text, m)
    {
      var f := m + WsRun(text, m);
      assert !IsWhiteSpace(text[last - 1]);
      assert f < last;
      assert text[f] == value[f - v];
    }
    FirstEndIsFirst(text, v + 1, last);
    assert text[v..last] == value;
  }

  /** `key: value;` reads back the value, when the value has no `;` and no white space at its ends. */
  lemma KeyValueRoundTrip(key: string, value: string)
    requires PlainKey(key)
    requires |value| > 0 && !IsWhiteSpace(value[0]) && !IsWhiteSpace(value[|value| - 1])
    requires forall i :: 0 <= i < |value| ==> value[i] != ';'
    ensures TryParseKeyValue(key + ": " + value + ";", key) == Parsed(true, value)
  {
    var text := key + ": " + value + ";";
    assert text == key + ":" + (" " + value + ";");
    KeyAtStart(key, " " + value + ";");
    assert key + ":" + " " + value + ";" == text;
    ValueBeforeSemicolon(key, value);
  }

  lemma FirstEndIsFirst(text: string, e: nat, r: nat)
    requires e <= r <= |text| && TailOk(text, r)
    requires forall m :: e <= m < r ==> !TailOk(text, m)
    ensures FirstEnd(text, e) == r
  {
  }

  /** A key with nothing after its colon but white space yields that white space's last character. */
  lemma KeyValueBlankValue(key: string)
    requires PlainKey(key)
    ensures TryParseKeyValue(key + ":  ", key) == Parsed(true, " ")
    ensures TryParseKeyValue(key + ":", key) == Parsed(false, "")
  {
    var n := |key|;
    KeyAtStart(key, "  ");
    var text := key + ":  ";
    assert key + ":" + "  " == text;
    assert WsRun(text, n + 1) == 2;
    assert text[n + 2..n + 3] == " ";
    KeyAtStart(key, "");
    var bare := key + ":";
    assert key + ":" + "" == bare;
    assert ValueFrom(bare, n + 1) == None;
    forall i | 0 <= i < |bare|
      ensures bare[i] != ';'
    {
      if i < n {
        assert bare[i] == key[i];
      }
    }
    NoSemicolonNoSearch(bare, key, 0);
  }

  lemma {:induction false} NoSemicolonNoSearch(text: string, key: string, p: nat)
    requires p <= |text|
    requires forall i :: p <= i < |text| ==> text[i] != ';'
    ensures Search(text, key, p) == None
    decreases |text| - p
  {
    if p < |text| {
      NoSemicolonNoSearch(text, key, p + 1);
    }
  }
}
