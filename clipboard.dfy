/**
 * ConvertHtmlToClipboardData of AppLogic/Helpers/ClipboardFormats.cs: the
 * Microsoft "HTML Clipboard Format" (CF_HTML) buffer, a text header with
 * four zero-padded byte offsets followed by the HTML, all in UTF-8 as in
 * section 3 of RFC 3629.
 */
module ClipboardFormats {
  import opened Wrappers
  import opened Faults
  import opened ConfigParsing

  newtype byte = x: int | 0 <= x < 256

  // ---------------------------------------------------------------------------
  // UTF-8 (RFC 3629, section 3)
  // ---------------------------------------------------------------------------

  /** The UTF-8 bytes of one Unicode scalar value: 1 to 4 bytes by range. */
  function EncodeChar(c: char): (r: seq<byte>)
    ensures |r| == if c as int < 0x80 then 1 else if c as int < 0x800 then 2 else if c as int < 0x10000 then 3 else 4
  {
    var n := c as int;
    if n < 0x80 then [n as byte]
    else if n < 0x800 then [(0xC0 + n / 64) as byte, (0x80 + n % 64) as byte]
    else if n < 0x10000 then [(0xE0 + n / 4096) as byte, (0x80 + n / 64 % 64) as byte, (0x80 + n % 64) as byte]
    else [(0xF0 + n / 0x40000) as byte, (0x80 + n / 4096 % 64) as byte, (0x80 + n / 64 % 64) as byte, (0x80 + n % 64) as byte]
  }

  /** UTF8Encoding.GetBytes, without a byte-order mark. */
  function Utf8(s: string): (r: seq<byte>)
    ensures |r| >= |s|
    decreases |s|
  {
    if |s| == 0 then [] else EncodeChar(s[0]) + Utf8(s[1..])
  }

  predicate IsContinuation(b: byte)
  {
    0x80 <= b < 0xC0
  }

  /** The first scalar value of a UTF-8 sequence and how many bytes it takes; None if ill-formed. */
  function DecodeFirst(bs: seq<byte>): (r: Option<(char, nat)>)
    requires |bs| > 0
    ensures r.Some? ==> 1 <= r.value.1 <= |bs|
  {
    var b0 := bs[0] as int;
    if b0 < 0x80 then Some((b0 as char, 1))
    else if 0xC2 <= b0 < 0xE0 && |bs| >= 2 && IsContinuation(bs[1]) then
      Some((((b0 - 0xC0) * 64 + (bs[1] as int - 0x80)) as char, 2))
    else if 0xE0 <= b0 < 0xF0 && |bs| >= 3 && IsContinuation(bs[1]) && IsContinuation(bs[2]) then
      var n := (b0 - 0xE0) * 4096 + (bs[1] as int - 0x80) * 64 + (bs[2] as int - 0x80);
      if 0x800 <= n && !(0xD800 <= n < 0xE000) then Some((n as char, 3)) else None
    else if 0xF0 <= b0 < 0xF5 && |bs| >= 4 && IsContinuation(bs[1]) && IsContinuation(bs[2]) && IsContinuation(bs[3]) then
      var n := (b0 - 0xF0) * 0x40000 + (bs[1] as int - 0x80) * 4096 + (bs[2] as int - 0x80) * 64 + (bs[3] as int - 0x80);
      if 0x10000 <= n < 0x110000 then Some((n as char, 4)) else None
    else None
  }

  /** A UTF-8 decoder, the inverse the encoder is checked against. */
  function Decode(bs: seq<byte>): Option<string>
    decreases |bs|
  {
    if |bs| == 0 then Some("")
    else
      match DecodeFirst(bs)
      case None => None
      case Some((c, k)) =>
        match Decode(bs[k..])
        case None => None
        case Some(rest) => Some([c] + rest)
  }

  /** The three six-bit groups of a value below 2^16 put back together. */
  lemma Groups3(n: nat)
    ensures n / 4096 * 4096 + n / 64 % 64 * 64 + n % 64 == n
  {
    var q := n / 64;
    assert n == q * 64 + n % 64;
    assert q == q / 64 * 64 + q % 64;
    assert q / 64 == n / 4096;
  }

  /** The four groups of a value below 2^21 put back together. */
  lemma Groups4(n: nat)
    ensures n / 0x40000 * 0x40000 + n / 4096 % 64 * 4096 + n / 64 % 64 * 64 + n % 64 == n
  {
    var p := n / 4096;
    Groups3(n);
    assert p == p / 64 * 64 + p % 64;
    assert p / 64 == n / 0x40000;
  }

  lemma DecodeFirstOfEncode(c: char, rest: seq<byte>)
    ensures DecodeFirst(EncodeChar(c) + rest) == Some((c, |EncodeChar(c)|))
  {
    var n := c as int;
    if 0x800 <= n < 0x10000 {
      Groups3(n);
    } else if 0x10000 <= n {
      Groups4(n);
    }
  }

  /** Decoding undoes encoding, so the encoding loses nothing. */
  lemma {:induction false} Utf8RoundTrip(s: string)
    ensures Decode(Utf8(s)) == Some(s)
    decreases |s|
  {
    if |s| > 0 {
      var e := EncodeChar(s[0]);
      DecodeFirstOfEncode(s[0], Utf8(s[1..]));
      assert (e + Utf8(s[1..]))[|e|..] == Utf8(s[1..]);
      Utf8RoundTrip(s[1..]);
      assert s == [s[0]] + s[1..];
    }
  }

  lemma {:induction false} Utf8Append(a: string, b: string)
    ensures Utf8(a + b) == Utf8(a) + Utf8(b)
    decreases |a|
  {
    if |a| == 0 {
      assert a + b == b;
    } else {
      assert (a + b)[1..] == a[1..] + b;
      assert (a + b)[0] == a[0];
      Utf8Append(a[1..], b);
    }
  }

  predicate IsAscii(s: string)
  {
    forall i :: 0 <= i < |s| ==> s[i] as int < 0x80
  }

  /** ASCII text is one byte per character, with the character's code. */
  lemma {:induction false} AsciiUtf8(s: string)
    requires IsAscii(s)
    ensures |Utf8(s)| == |s|
    ensures forall i :: 0 <= i < |s| ==> Utf8(s)[i] as int == s[i] as int
    decreases |s|
  {
    if |s| > 0 {
      AsciiUtf8(s[1..]);
      assert forall i :: 1 <= i < |s| ==> s[1..][i - 1] == s[i];
    }
  }

  // ---------------------------------------------------------------------------
  // The header and the markers
  // ---------------------------------------------------------------------------

  /** `{n:00000}`: the decimal digits of `n`, left-padded with zeros to five. */
  function Pad5(n: nat): (s: string)
    ensures AllDigits(s, 10) && |s| >= 5
  {
    var d := Digits(n, 10);
    if |d| >= 5 then d else Zeros(5 - |d|) + d
  }

  function Zeros(k: nat): (s: string)
    ensures |s| == k && AllDigits(s, 10)
    ensures forall i :: 0 <= i < k ==> s[i] == '0'
  {
    seq(k, i => '0')
  }

  const HeaderStart := "Version:0.9:\nStartHTML:"
  const AfterStartHtml := "\nEndHTML:"
  const AfterEndHtml := "\nStartFragment:"
  const AfterStartFragment := "\nEndFragment:"

  /** `String.Format(HEADER, a, b, c, d)`: StartHTML, EndHTML, StartFragment, EndFragment. */
  function Header(a: nat, b: nat, c: nat, d: nat): string
  {
    HeaderStart + Pad5(a) + AfterStartHtml + Pad5(b) + AfterEndHtml + Pad5(c) + AfterStartFragment + Pad5(d) + "\n"
  }

  /** The markers are written with U+2013 EN DASH, not with two hyphens. */
  const EnDash := "\U{2013}"

  /** `HTML_START`. */
  const HtmlStart := "<html>\n<body>\n<!" + EnDash + "StartFragment" + EnDash + ">"

  /** `HTML_END`. */
  const HtmlEnd := "<!" + EnDash + "EndFragment" + EnDash + ">\n</body>\n</html>\n"

  /** The byte offset of the HTML, i.e. the length of a header with five-digit fields. */
  const HeaderLength := 81
  const HtmlStartLength := 36
  const HtmlEndLength := 37
  /** The largest offset five digits can hold. */
  const MaxOffset := 99999

  const ErrorMessage := "ConvertHtmlToClipboardData"

  /** n has at most k decimal digits exactly when it is below 10^k. */
  lemma {:induction false} DigitsWidth(n: nat, k: nat, p: nat)
    requires k >= 1 && p == Pow10(k)
    ensures |Digits(n, 10)| <= k <==> n < p
    decreases n
  {
    if n >= 10 {
      if k == 1 {
        assert |Digits(n / 10, 10)| >= 1;
      } else {
        DigitsWidth(n / 10, k - 1, Pow10(k - 1));
      }
    }
  }

  function Pow10(k: nat): (p: nat)
    ensures p >= 1
  {
    if k == 0 then 1 else 10 * Pow10(k - 1)
  }

  /** A field is five characters exactly when the offset fits five digits. */
  lemma Pad5Width(n: nat)
    ensures |Pad5(n)| == 5 <==> n <= MaxOffset
  {
    DigitsWidth(n, 5, 100000);
  }

  lemma AsciiAppend(a: string, b: string)
    requires IsAscii(a) && IsAscii(b)
    ensures IsAscii(a + b)
  {
  }

  lemma Pad5IsAscii(n: nat)
    ensures IsAscii(Pad5(n))
  {
    var s := Pad5(n);
    forall i | 0 <= i < |s|
      ensures s[i] as int < 0x80
    {
      assert IsDecDigit(s[i]);
    }
  }

  lemma LiteralsAreAscii()
    ensures IsAscii(HeaderStart) && IsAscii(AfterStartHtml) && IsAscii(AfterEndHtml)
    ensures IsAscii(AfterStartFragment) && IsAscii("\n")
  {
  }

  lemma HeaderIsAscii(a: nat, b: nat, c: nat, d: nat)
    ensures IsAscii(Header(a, b, c, d))
  {
    LiteralsAreAscii();
    Pad5IsAscii(a);
    Pad5IsAscii(b);
    Pad5IsAscii(c);
    Pad5IsAscii(d);
    var s1 := HeaderStart + Pad5(a);
    AsciiAppend(HeaderStart, Pad5(a));
    var s2 := s1 + AfterStartHtml;
    AsciiAppend(s1, AfterStartHtml);
    var s3 := s2 + Pad5(b);
    AsciiAppend(s2, Pad5(b));
    var s4 := s3 + AfterEndHtml;
    AsciiAppend(s3, AfterEndHtml);
    var s5 := s4 + Pad5(c);
    AsciiAppend(s4, Pad5(c));
    var s6 := s5 + AfterStartFragment;
    AsciiAppend(s5, AfterStartFragment);
    var s7 := s6 + Pad5(d);
    AsciiAppend(s6, Pad5(d));
    AsciiAppend(s7, "\n");
  }

  /** The header's byte length: 61 fixed bytes and four fields of at least five digits. */
  lemma HeaderBytes(a: nat, b: nat, c: nat, d: nat)
    ensures |Utf8(Header(a, b, c, d))| == 61 + |Pad5(a)| + |Pad5(b)| + |Pad5(c)| + |Pad5(d)|
    ensures |Utf8(Header(a, b, c, d))| == HeaderLength <==> a <= MaxOffset && b <= MaxOffset && c <= MaxOffset && d <= MaxOffset
  {
    HeaderIsAscii(a, b, c, d);
    AsciiUtf8(Header(a, b, c, d));
    Pad5Width(a);
    Pad5Width(b);
    Pad5Width(c);
    Pad5Width(d);
  }

  /** The en dash is three bytes, so each marker is four bytes longer than its character count. */
  lemma Utf8Length5(s1: string, s2: string, s3: string, s4: string, s5: string)
    ensures |Utf8(s1 + s2 + s3 + s4 + s5)| == |Utf8(s1)| + |Utf8(s2)| + |Utf8(s3)| + |Utf8(s4)| + |Utf8(s5)|
  {
    Utf8Append(s1, s2);
    Utf8Append(s1 + s2, s3);
    Utf8Append(s1 + s2 + s3, s4);
    Utf8Append(s1 + s2 + s3 + s4, s5);
  }

  lemma EnDashLength()
    ensures |Utf8(EnDash)| == 3
  {
    assert |EncodeChar(EnDash[0])| == 3;
    assert Utf8(EnDash) == EncodeChar(EnDash[0]) + Utf8("");
  }

  /** Two en dashes between ASCII pieces: six bytes for the dashes, one per other character. */
  lemma MarkerLength(s1: string, s2: string, s3: string)
    requires IsAscii(s1) && IsAscii(s2) && IsAscii(s3)
    ensures |Utf8(s1 + EnDash + s2 + EnDash + s3)| == |s1| + |s2| + |s3| + 6
  {
    EnDashLength();
    Utf8Length5(s1, EnDash, s2, EnDash, s3);
    AsciiUtf8(s1);
    AsciiUtf8(s2);
    AsciiUtf8(s3);
  }

  /** The UTF-8 of `HTML_START`. */
  function StartMarker(): seq<byte>
  {
    Utf8(HtmlStart)
  }

  /** The UTF-8 of `HTML_END`. */
  function EndMarker(): seq<byte>
  {
    Utf8(HtmlEnd)
  }

  lemma MarkerLengths()
    ensures |StartMarker()| == HtmlStartLength
    ensures |EndMarker()| == HtmlEndLength
  {
    MarkerLength("<html>\n<body>\n<!", "StartFragment", ">");
    MarkerLength("<!", "EndFragment", ">\n</body>\n</html>\n");
  }

  // ---------------------------------------------------------------------------
  // The buffer
  // ---------------------------------------------------------------------------

  /** The HTML part: the start marker, the fragment and the end marker. */
  function Body(html: string): seq<byte>
  {
    StartMarker() + Utf8(html) + EndMarker()
  }

  /** `header`: the UTF-8 of the header formatted with the placeholders 0, 1, 2, 3. */
  function PlaceholderHeader(): seq<byte>
  {
    Utf8(Header(0, 1, 2, 3))
  }

  lemma PlaceholderHeaderLength()
    ensures |PlaceholderHeader()| == HeaderLength
  {
    HeaderBytes(0, 1, 2, 3);
  }

  /** The header rebuilt from the offsets, as the code orders the arguments. */
  function NewHeaderAsWritten(startHtml: nat, startFragment: nat, endFragment: nat, endHtml: nat): seq<byte>
  {
    Utf8(Header(startHtml, startFragment, endFragment, endHtml))
  }

  /**
   * The buffer behind a given header: the body follows it, the length check
   * uses a header rebuilt from the real offsets, and `header` itself is
   * what is copied back over the buffer's first bytes.
   */
  function UnpatchedData(header: seq<byte>, html: string): (r: Result<seq<byte>, Exc>)
    ensures r.Failure? ==> r.error == Leaf(InvalidOperation, ErrorMessage)
    ensures r.Success? ==> |r.value| == |header| + |Body(html)| &&
                           r.value[..|header|] == header && r.value[|header|..] == Body(html)
  {
    var newHeader := UnpatchedHeader(|header|, |Utf8(html)|);
    if |newHeader| != |header| then Failure(Leaf(InvalidOperation, ErrorMessage))
    else Success(header + Body(html))
  }

  /** The header the length check rebuilds, for a header of `startHtml` bytes and a fragment of `n`. */
  function UnpatchedHeader(startHtml: nat, n: nat): seq<byte>
  {
    var startFragment := startHtml + HtmlStartLength;
    var endFragment := startFragment + n;
    var endHtml := endFragment + HtmlEndLength;
    NewHeaderAsWritten(startHtml, startFragment, endFragment, endHtml)
  }

  /** ConvertHtmlToClipboardData as written: the placeholder header stays in front of the body, or the length check throws. */
  function ClipboardDataAsWritten(html: string): (r: Result<seq<byte>, Exc>)
    ensures r.Failure? ==> r.error == Leaf(InvalidOperation, ErrorMessage)
    ensures r.Success? ==> |r.value| == |PlaceholderHeader()| + |Body(html)| &&
                           r.value[..|PlaceholderHeader()|] == PlaceholderHeader() &&
                           r.value[|PlaceholderHeader()|..] == Body(html)
  {
    UnpatchedData(PlaceholderHeader(), html)
  }

  /**
   * ConvertHtmlToClipboardData after formatting the placeholder header: a
   * growing buffer, the length check, then Array.Copy of `header` over the
   * buffer's first bytes.
   */
  method BuildBuffer(header: seq<byte>, html: string) returns (r: Result<seq<byte>, Exc>)
    ensures r == UnpatchedData(header, html)
  {
    var data: seq<byte> := [];
    data := data + header;
    assert data == header;
    var startHtml := |data|;
    data := data + StartMarker();
    var startFragment := |data|;
    data := data + Utf8(html);
    var endFragment := |data|;
    data := data + EndMarker();
    var endHtml := |data|;
    BufferParts(header, html, data, startHtml, startFragment, endFragment, endHtml);
    UnpatchedDataAt(header, html, startHtml, startFragment, endFragment, endHtml);
    var newHeader := NewHeaderAsWritten(startHtml, startFragment, endFragment, endHtml);
    if |newHeader| != startHtml {
      return Failure(Leaf(InvalidOperation, ErrorMessage));
    }
    var buffer := CopyOver(header, data);
    r := Success(buffer);
  }

  /** What the growing buffer holds and where its parts start. */
  lemma BufferParts(header: seq<byte>, html: string, data: seq<byte>,
                    startHtml: nat, startFragment: nat, endFragment: nat, endHtml: nat)
    requires data == header + StartMarker() + Utf8(html) + EndMarker()
    requires startHtml == |header| && startFragment == |header + StartMarker()|
    requires endFragment == |header + StartMarker() + Utf8(html)| && endHtml == |data|
    ensures startFragment == startHtml + |StartMarker()| && endFragment == startFragment + |Utf8(html)|
    ensures endHtml == endFragment + |EndMarker()|
    ensures startHtml <= |data| && data[startHtml..] == Body(html)
  {
    ConcatAssoc(header, StartMarker(), Utf8(html), EndMarker());
    assert data[startHtml..] == Body(html);
  }

  /** UnpatchedData at the offsets the buffer gives. */
  lemma UnpatchedDataAt(header: seq<byte>, html: string,
                        startHtml: nat, startFragment: nat, endFragment: nat, endHtml: nat)
    requires startHtml == |header| && startFragment == startHtml + |StartMarker()|
    requires endFragment == startFragment + |Utf8(html)| && endHtml == endFragment + |EndMarker()|
    ensures UnpatchedData(header, html) ==
            if |NewHeaderAsWritten(startHtml, startFragment, endFragment, endHtml)| != startHtml
            then Failure(Leaf(InvalidOperation, ErrorMessage)) else Success(header + Body(html))
  {
    MarkerLengths();
    UnpatchedHeaderAt(|header|, |Utf8(html)|, startHtml, startFragment, endFragment, endHtml);
  }

  lemma UnpatchedHeaderAt(h: nat, n: nat, startHtml: nat, startFragment: nat, endFragment: nat, endHtml: nat)
    requires startHtml == h && startFragment == startHtml + HtmlStartLength
    requires endFragment == startFragment + n && endHtml == endFragment + HtmlEndLength
    ensures UnpatchedHeader(h, n) == NewHeaderAsWritten(startHtml, startFragment, endFragment, endHtml)
  {
  }

  /** PatchedData at the offsets the buffer gives. */
  lemma PatchedDataAt(header: seq<byte>, html: string,
                      startHtml: nat, startFragment: nat, endFragment: nat, endHtml: nat)
    requires startHtml == |header| && startFragment == startHtml + |StartMarker()|
    requires endFragment == startFragment + |Utf8(html)| && endHtml == endFragment + |EndMarker()|
    ensures PatchedData(header, html) ==
            if |NewHeader(startHtml, startFragment, endFragment, endHtml)| != startHtml
            then Failure(Leaf(InvalidOperation, ErrorMessage))
            else Success(NewHeader(startHtml, startFragment, endFragment, endHtml) + Body(html))
  {
    MarkerLengths();
    PatchedHeaderAt(|header|, |Utf8(html)|, startHtml, startFragment, endFragment, endHtml);
  }

  lemma PatchedHeaderAt(h: nat, n: nat, startHtml: nat, startFragment: nat, endFragment: nat, endHtml: nat)
    requires startHtml == h && startFragment == startHtml + HtmlStartLength
    requires endFragment == startFragment + n && endHtml == endFragment + HtmlEndLength
    ensures PatchedHeader(h, n) == NewHeader(startHtml, startFragment, endFragment, endHtml)
  {
  }

  /** `data.ToArray()` followed by Array.Copy of `source` over its first bytes. */
  method CopyOver(source: seq<byte>, data: seq<byte>) returns (r: seq<byte>)
    requires |source| <= |data|
    ensures r == source + data[|source|..]
  {
    var buffer := new byte[|data|](i requires 0 <= i < |data| => data[i]);
    ArrayCopy(source, buffer, |source|);
    r := buffer[..];
  }

  /** Array.Copy(source, destination, length): the first `length` bytes are overwritten, in place. */
  method ArrayCopy(source: seq<byte>, destination: array<byte>, length: nat)
    requires length <= |source| && length <= destination.Length
    modifies destination
    ensures forall k :: 0 <= k < length ==> destination[k] == source[k]
    ensures forall k :: length <= k < destination.Length ==> destination[k] == old(destination[k])
  {
    for i := 0 to length
      invariant forall k :: 0 <= k < i ==> destination[k] == source[k]
      invariant forall k :: i <= k < destination.Length ==> destination[k] == old(destination[k])
    {
      destination[i] := source[i];
    }
  }

  lemma ConcatAssoc(h: seq<byte>, a: seq<byte>, u: seq<byte>, e: seq<byte>)
    ensures h + a + u + e == h + (a + u + e)
  {
  }

  method ConvertHtmlToClipboardData(html: string) returns (r: Result<seq<byte>, Exc>)
    ensures r == ClipboardDataAsWritten(html)
  {
    var header := PlaceholderHeader();
    r := BuildBuffer(header, html);
  }

  /** The end of the HTML for a fragment of `n` bytes. */
  function EndHtml(n: nat): nat
  {
    HeaderLength + HtmlStartLength + n + HtmlEndLength
  }

  lemma UnpatchedError(header: seq<byte>, html: string)
    requires UnpatchedData(header, html).Failure?
    ensures UnpatchedData(header, html).error == Leaf(InvalidOperation, ErrorMessage)
  {
  }

  /** The length check: the rebuilt header keeps 81 bytes exactly while EndHTML fits five digits. */
  lemma NewHeaderAsWrittenLength(n: nat)
    ensures |UnpatchedHeader(HeaderLength, n)| == HeaderLength <==> EndHtml(n) <= MaxOffset
  {
    HeaderBytes(HeaderLength, HeaderLength + HtmlStartLength, HeaderLength + HtmlStartLength + n, EndHtml(n));
  }

  lemma UnpatchedFailure(header: seq<byte>, html: string)
    requires |header| == HeaderLength
    ensures UnpatchedData(header, html).Failure? <==> EndHtml(|Utf8(html)|) > MaxOffset
  {
    NewHeaderAsWrittenLength(|Utf8(html)|);
  }

  lemma UnpatchedValue(header: seq<byte>, html: string)
    requires UnpatchedData(header, html).Success?
    ensures UnpatchedData(header, html).value == header + Body(html)
  {
  }

  /** Where each part lies in a buffer made of an 81-byte header and the body. */
  lemma BodyLayout(header: seq<byte>, html: string)
    requires |header| == HeaderLength
    ensures var data := header + Body(html);
            var endFragment := HeaderLength + HtmlStartLength + |Utf8(html)|;
            |data| == EndHtml(|Utf8(html)|) &&
            data[..HeaderLength] == header &&
            data[HeaderLength..HeaderLength + HtmlStartLength] == StartMarker() &&
            data[HeaderLength + HtmlStartLength..endFragment] == Utf8(html) &&
            data[endFragment..] == EndMarker()
  {
    MarkerLengths();
  }

  /**
   * The layout as written: the placeholder header, then the start marker,
   * the UTF-8 of the fragment and the end marker; the header takes 81
   * bytes, the fragment starts 36 bytes later, and the buffer is endHtml
   * long.  It is an InvalidOperationException exactly when endHtml needs
   * more than five digits.
   */
  lemma ClipboardDataLayout(html: string)
    ensures ClipboardDataAsWritten(html).Failure? <==> EndHtml(|Utf8(html)|) > MaxOffset
    ensures ClipboardDataAsWritten(html).Failure? ==>
              ClipboardDataAsWritten(html).error == Leaf(InvalidOperation, ErrorMessage)
    ensures ClipboardDataAsWritten(html).Success? ==>
              var data := ClipboardDataAsWritten(html).value;
              var endFragment := HeaderLength + HtmlStartLength + |Utf8(html)|;
              |data| == EndHtml(|Utf8(html)|) &&
              data[..HeaderLength] == PlaceholderHeader() &&
              data[HeaderLength..HeaderLength + HtmlStartLength] == StartMarker() &&
              data[HeaderLength + HtmlStartLength..endFragment] == Utf8(html) &&
              data[endFragment..] == EndMarker()
  {
    PlaceholderHeaderLength();
    UnpatchedFailure(PlaceholderHeader(), html);
    if ClipboardDataAsWritten(html).Success? {
      UnpatchedValue(PlaceholderHeader(), html);
    } else {
      UnpatchedError(PlaceholderHeader(), html);
    }
    BodyLayout(PlaceholderHeader(), html);
  }

  // ---------------------------------------------------------------------------
  // Reading the offsets back
  // ---------------------------------------------------------------------------

  predicate IsDigitByte(b: byte)
  {
    '0' as int <= b as int <= '9' as int
  }

  /** The value of a run of ASCII digit bytes. */
  function DecimalValue(bs: seq<byte>): nat
    requires forall i :: 0 <= i < |bs| ==> IsDigitByte(bs[i])
    decreases |bs|
  {
    if |bs| == 0 then 0
    else
      assert IsDigitByte(bs[|bs| - 1]);
      DecimalValue(bs[..|bs| - 1]) * 10 + (bs[|bs| - 1] as int - '0' as int)
  }

  /** Where each offset field starts in a header with five-digit fields. */
  const StartHtmlField := 23
  const EndHtmlField := 37
  const StartFragmentField := 57
  const EndFragmentField := 75

  /** The five-byte field at `at`, read as a number; anything but five digits reads as none. */
  function FieldAt(data: seq<byte>, at: nat): Option<nat>
  {
    if at + 5 <= |data| && forall i :: at <= i < at + 5 ==> IsDigitByte(data[i])
    then Some(DecimalValue(data[at..at + 5]))
    else None
  }

  /** A field is read from the header alone, whatever follows it. */
  lemma FieldAtPrefix(h: seq<byte>, rest: seq<byte>, at: nat)
    requires at + 5 <= |h|
    ensures FieldAt(h + rest, at) == FieldAt(h, at)
  {
    assert (h + rest)[at..at + 5] == h[at..at + 5];
    assert forall i :: at <= i < at + 5 ==> (h + rest)[i] == h[i];
  }

  lemma {:induction false} DigitsValueOfZeros(z: string, d: string)
    requires AllDigits(z, 10) && AllDigits(d, 10)
    requires forall i :: 0 <= i < |z| ==> z[i] == '0'
    ensures DigitsValue(z + d, 10) == DigitsValue(d, 10)
    decreases |d|, |z|
  {
    if |d| == 0 {
      assert z + d == z;
      if |z| > 0 {
        DigitsValueOfZeros(z[..|z| - 1], "");
        assert z[..|z| - 1] + "" == z[..|z| - 1];
      }
    } else {
      assert (z + d)[..|z + d| - 1] == z + d[..|d| - 1];
      DigitsValueOfZeros(z, d[..|d| - 1]);
    }
  }

  /** Leading zeros do not change the value a field reads as. */
  lemma Pad5Value(n: nat)
    ensures DigitsValue(Pad5(n), 10) == n
  {
    DigitsValueOfDigits(n, 10);
    var d := Digits(n, 10);
    if |d| < 5 {
      DigitsValueOfZeros(Zeros(5 - |d|), d);
    }
  }

  /** Digit bytes read as the digit characters they encode. */
  lemma {:induction false} DecimalValueOfAscii(s: string, bs: seq<byte>)
    requires AllDigits(s, 10) && |bs| == |s|
    requires forall i :: 0 <= i < |s| ==> bs[i] as int == s[i] as int
    ensures forall i :: 0 <= i < |bs| ==> IsDigitByte(bs[i])
    ensures DecimalValue(bs) == DigitsValue(s, 10)
    decreases |s|
  {
    if |s| > 0 {
      DecimalValueOfAscii(s[..|s| - 1], bs[..|bs| - 1]);
    }
  }

  lemma FieldOf(s: string, h: seq<byte>, at: nat, n: nat)
    requires |Pad5(n)| == 5 && at + 5 <= |s| && |h| == |s|
    requires forall j :: 0 <= j < 5 ==> s[at + j] == Pad5(n)[j]
    requires forall i :: 0 <= i < |s| ==> h[i] as int == s[i] as int
    ensures FieldAt(h, at) == Some(n)
  {
    assert s[at..at + 5] == Pad5(n);
    DecimalValueOfAscii(s[at..at + 5], h[at..at + 5]);
    Pad5Value(n);
    assert forall i :: at <= i < at + 5 ==> h[at..at + 5][i - at] == h[i];
  }

  /** With five-digit fields, each field sits at its fixed offset in the header text. */
  lemma HeaderText(a: nat, b: nat, c: nat, d: nat)
    requires |Pad5(a)| == 5 && |Pad5(b)| == 5 && |Pad5(c)| == 5 && |Pad5(d)| == 5
    ensures var s := Header(a, b, c, d);
            |s| == HeaderLength &&
            (forall j :: 0 <= j < 5 ==> s[StartHtmlField + j] == Pad5(a)[j]) &&
            (forall j :: 0 <= j < 5 ==> s[EndHtmlField + j] == Pad5(b)[j]) &&
            (forall j :: 0 <= j < 5 ==> s[StartFragmentField + j] == Pad5(c)[j]) &&
            (forall j :: 0 <= j < 5 ==> s[EndFragmentField + j] == Pad5(d)[j])
  {
  }

  /** The header's four fields read back as the four numbers it was formatted with. */
  lemma HeaderFields(a: nat, b: nat, c: nat, d: nat)
    requires a <= MaxOffset && b <= MaxOffset && c <= MaxOffset && d <= MaxOffset
    ensures var h := Utf8(Header(a, b, c, d));
            FieldAt(h, StartHtmlField) == Some(a) && FieldAt(h, EndHtmlField) == Some(b) &&
            FieldAt(h, StartFragmentField) == Some(c) && FieldAt(h, EndFragmentField) == Some(d)
  {
    var s := Header(a, b, c, d);
    var h := Utf8(s);
    HeaderIsAscii(a, b, c, d);
    AsciiUtf8(s);
    Pad5Width(a);
    Pad5Width(b);
    Pad5Width(c);
    Pad5Width(d);
    HeaderText(a, b, c, d);
    FieldOf(s, h, StartHtmlField, a);
    FieldOf(s, h, EndHtmlField, b);
    FieldOf(s, h, StartFragmentField, c);
    FieldOf(s, h, EndFragmentField, d);
  }

  // ---------------------------------------------------------------------------
  // What the code evidently intends
  // ---------------------------------------------------------------------------

  /**
   * The as-written buffer's offset fields read 0, 1, 2, 3: the StartHTML
   * field says 0 where the HTML starts at byte 81, and the EndHTML field
   * says 1 of a buffer at least 154 bytes long.
   */
  lemma AsWrittenFieldsArePlaceholders(html: string)
    requires ClipboardDataAsWritten(html).Success?
    ensures var data := ClipboardDataAsWritten(html).value;
            FieldAt(data, StartHtmlField) == Some(0) && FieldAt(data, EndHtmlField) == Some(1) &&
            FieldAt(data, StartFragmentField) == Some(2) && FieldAt(data, EndFragmentField) == Some(3)
    ensures FieldAt(ClipboardDataAsWritten(html).value, EndHtmlField).value != |ClipboardDataAsWritten(html).value|
  {
    PlaceholderHeaderLength();
    UnpatchedValue(PlaceholderHeader(), html);
    BodyLayout(PlaceholderHeader(), html);
    HeaderFields(0, 1, 2, 3);
    var h := PlaceholderHeader();
    FieldAtPrefix(h, Body(html), StartHtmlField);
    FieldAtPrefix(h, Body(html), EndHtmlField);
    FieldAtPrefix(h, Body(html), StartFragmentField);
    FieldAtPrefix(h, Body(html), EndFragmentField);
  }

  /**
   * The rebuilt header has its arguments in the order StartHTML,
   * StartFragment, EndFragment, EndHTML, while the format's fields are
   * StartHTML, EndHTML, StartFragment, EndFragment: copied back, its EndHTML
   * field would say 117 and its EndFragment field the buffer's length.
   */
  lemma NewHeaderFieldsOutOfOrder(n: nat)
    requires EndHtml(n) <= MaxOffset
    ensures var h := NewHeaderAsWritten(HeaderLength, HeaderLength + HtmlStartLength,
                                        HeaderLength + HtmlStartLength + n, EndHtml(n));
            FieldAt(h, EndHtmlField) == Some(HeaderLength + HtmlStartLength) &&
            FieldAt(h, StartFragmentField) == Some(HeaderLength + HtmlStartLength + n) &&
            FieldAt(h, EndFragmentField) == Some(EndHtml(n)) &&
            FieldAt(h, EndHtmlField) != Some(EndHtml(n))
  {
    HeaderFields(HeaderLength, HeaderLength + HtmlStartLength, HeaderLength + HtmlStartLength + n, EndHtml(n));
  }

  /**
   * The header the format calls for, in field order, for a header of
   * `startHtml` bytes and a fragment of `n` bytes; the markers' byte lengths
   * are those MarkerLengths proves.
   */
  function PatchedHeader(startHtml: nat, n: nat): seq<byte>
  {
    var startFragment := startHtml + HtmlStartLength;
    var endFragment := startFragment + n;
    var endHtml := endFragment + HtmlEndLength;
    NewHeader(startHtml, startFragment, endFragment, endHtml)
  }

  /** The header rebuilt from the offsets with the arguments in field order. */
  function NewHeader(startHtml: nat, startFragment: nat, endFragment: nat, endHtml: nat): seq<byte>
  {
    Utf8(Header(startHtml, endHtml, startFragment, endFragment))
  }

  /** The buffer with the patched header copied over the placeholder one. */
  function PatchedData(header: seq<byte>, html: string): (r: Result<seq<byte>, Exc>)
    ensures r.Failure? ==> r.error == Leaf(InvalidOperation, ErrorMessage)
    ensures r.Success? ==> |r.value| == |header| + |Body(html)| &&
                           r.value[..|header|] == PatchedHeader(|header|, |Utf8(html)|) &&
                           r.value[|header|..] == Body(html)
  {
    var newHeader := PatchedHeader(|header|, |Utf8(html)|);
    if |newHeader| != |header| then Failure(Leaf(InvalidOperation, ErrorMessage))
    else Success(newHeader + Body(html))
  }

  /**
   * ConvertHtmlToClipboardData with `newHeader` built in field order and
   * copied into the buffer: the header of the real offsets, of the
   * placeholder's length, in front of the body, or the length check throws.
   */
  function ClipboardData(html: string): (r: Result<seq<byte>, Exc>)
    ensures r.Failure? ==> r.error == Leaf(InvalidOperation, ErrorMessage)
    ensures r.Success? ==> |r.value| == |PlaceholderHeader()| + |Body(html)| &&
                           r.value[..|PlaceholderHeader()|] == PatchedHeader(|PlaceholderHeader()|, |Utf8(html)|) &&
                           r.value[|PlaceholderHeader()|..] == Body(html)
  {
    PatchedData(PlaceholderHeader(), html)
  }

  /** BuildBuffer with `newHeader`, in field order, copied over the buffer's first bytes. */
  method BuildPatchedBuffer(header: seq<byte>, html: string) returns (r: Result<seq<byte>, Exc>)
    ensures r == PatchedData(header, html)
  {
    var data: seq<byte> := [];
    data := data + header;
    assert data == header;
    var startHtml := |data|;
    data := data + StartMarker();
    var startFragment := |data|;
    data := data + Utf8(html);
    var endFragment := |data|;
    data := data + EndMarker();
    var endHtml := |data|;
    BufferParts(header, html, data, startHtml, startFragment, endFragment, endHtml);
    PatchedDataAt(header, html, startHtml, startFragment, endFragment, endHtml);
    var newHeader := NewHeader(startHtml, startFragment, endFragment, endHtml);
    if |newHeader| != startHtml {
      return Failure(Leaf(InvalidOperation, ErrorMessage));
    }
    var buffer := CopyOver(newHeader, data);
    r := Success(buffer);
  }

  /** The corrected ConvertHtmlToClipboardData. */
  method ConvertHtmlToClipboardDataPatched(html: string) returns (r: Result<seq<byte>, Exc>)
    ensures r == ClipboardData(html)
  {
    var header := PlaceholderHeader();
    r := BuildPatchedBuffer(header, html);
  }

  lemma PatchedFailure(header: seq<byte>, html: string)
    requires |header| == HeaderLength
    ensures PatchedData(header, html).Failure? <==> EndHtml(|Utf8(html)|) > MaxOffset
  {
    var n := |Utf8(html)|;
    var startFragment := |header| + HtmlStartLength;
    HeaderBytes(|header|, startFragment + n + HtmlEndLength, startFragment, startFragment + n);
  }

  lemma PatchedError(header: seq<byte>, html: string)
    requires PatchedData(header, html).Failure?
    ensures PatchedData(header, html).error == Leaf(InvalidOperation, ErrorMessage)
  {
  }

  /** The patched header is 81 bytes long and its fields read the real offsets. */
  lemma PatchedHeaderFields(startHtml: nat, n: nat)
    requires startHtml + HtmlStartLength + n + HtmlEndLength <= MaxOffset
    ensures |PatchedHeader(startHtml, n)| == HeaderLength
    ensures FieldAt(PatchedHeader(startHtml, n), StartHtmlField) == Some(startHtml)
    ensures FieldAt(PatchedHeader(startHtml, n), EndHtmlField) == Some(startHtml + HtmlStartLength + n + HtmlEndLength)
    ensures FieldAt(PatchedHeader(startHtml, n), StartFragmentField) == Some(startHtml + HtmlStartLength)
    ensures FieldAt(PatchedHeader(startHtml, n), EndFragmentField) == Some(startHtml + HtmlStartLength + n)
  {
    var startFragment := startHtml + HtmlStartLength;
    var endFragment := startFragment + n;
    var endHtml := endFragment + HtmlEndLength;
    FieldsOfFormatted(PatchedHeader(startHtml, n), startHtml, endHtml, startFragment, endFragment);
  }

  /** A header formatted from four offsets in range is 81 bytes long and reads them back. */
  lemma FieldsOfFormatted(h: seq<byte>, a: nat, b: nat, c: nat, d: nat)
    requires a <= MaxOffset && b <= MaxOffset && c <= MaxOffset && d <= MaxOffset
    requires h == Utf8(Header(a, b, c, d))
    ensures |h| == HeaderLength
    ensures FieldAt(h, StartHtmlField) == Some(a) && FieldAt(h, EndHtmlField) == Some(b)
    ensures FieldAt(h, StartFragmentField) == Some(c) && FieldAt(h, EndFragmentField) == Some(d)
  {
    HeaderBytes(a, b, c, d);
    HeaderFields(a, b, c, d);
  }

  /** The corrected buffer fails in exactly the cases the code as written does, with the same exception. */
  lemma ClipboardDataFailsAlike(html: string)
    ensures ClipboardData(html).Failure? <==> ClipboardDataAsWritten(html).Failure?
    ensures ClipboardData(html).Failure? ==> ClipboardData(html).error == Leaf(InvalidOperation, ErrorMessage)
  {
    PlaceholderHeaderLength();
    UnpatchedFailure(PlaceholderHeader(), html);
    PatchedFailure(PlaceholderHeader(), html);
    if ClipboardData(html).Failure? {
      PatchedError(PlaceholderHeader(), html);
    }
  }

  /**
   * What the format asks of a CF_HTML buffer holding `html`: the four fields
   * read as numbers, StartHTML is where `HTML_START` begins, EndHTML is the
   * buffer's length, and the bytes between StartFragment and EndFragment are
   * exactly the UTF-8 of `html`, with the markers around them.
   */
  predicate DescribesFragment(data: seq<byte>, html: string)
  {
    FieldAt(data, StartHtmlField).Some? && FieldAt(data, EndHtmlField).Some? &&
    FieldAt(data, StartFragmentField).Some? && FieldAt(data, EndFragmentField).Some? &&
    var startHtml := FieldAt(data, StartHtmlField).value;
    var endHtml := FieldAt(data, EndHtmlField).value;
    var startFragment := FieldAt(data, StartFragmentField).value;
    var endFragment := FieldAt(data, EndFragmentField).value;
    startHtml + HtmlStartLength == startFragment <= endFragment &&
    endFragment + HtmlEndLength == endHtml == |data| &&
    data[startHtml..startFragment] == StartMarker() &&
    data[startFragment..endFragment] == Utf8(html) &&
    data[endFragment..endHtml] == EndMarker()
  }

  /** An 81-byte header whose fields hold the real offsets describes the buffer it starts. */
  lemma HeaderDescribesBody(h: seq<byte>, html: string)
    requires |h| == HeaderLength
    requires FieldAt(h, StartHtmlField) == Some(HeaderLength)
    requires FieldAt(h, EndHtmlField) == Some(EndHtml(|Utf8(html)|))
    requires FieldAt(h, StartFragmentField) == Some(HeaderLength + HtmlStartLength)
    requires FieldAt(h, EndFragmentField) == Some(HeaderLength + HtmlStartLength + |Utf8(html)|)
    ensures DescribesFragment(h + Body(html), html)
  {
    BodyLayout(h, html);
    FieldAtPrefix(h, Body(html), StartHtmlField);
    FieldAtPrefix(h, Body(html), EndHtmlField);
    FieldAtPrefix(h, Body(html), StartFragmentField);
    FieldAtPrefix(h, Body(html), EndFragmentField);
  }

  /** The corrected buffer, whenever there is one, is described by its own header. */
  lemma ClipboardDataOffsets(html: string)
    requires ClipboardData(html).Success?
    ensures DescribesFragment(ClipboardData(html).value, html)
  {
    var header := PlaceholderHeader();
    var n := |Utf8(html)|;
    PlaceholderHeaderLength();
    PatchedFailure(header, html);
    var h := PatchedHeader(|header|, n);
    PatchedHeaderFields(|header|, n);
    HeaderDescribesBody(h, html);
  }
}
