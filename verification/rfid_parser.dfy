/** The RFID parser: decodes a hexadecimal payload, keeps its digits, checks them
    against the configured identifier length and prefixes a date. Stateless apart
    from its configuration. */
module RfidParser {
  import opened Wrappers
  import opened JsDate
  import opened JsText

  /** The date formatter in use: the built-in YYMMDD one, or one supplied by the
      caller. A supplied formatter receives `None` when called without an argument. */
  datatype DateFormatter = DefaultFormatter | CustomFormatter(format: Option<Time> -> string)

  /** Constructor options; `None` means the option was not given. */
  datatype ParserOptions = ParserOptions(dateFormatter: Option<Option<Time> -> string>, rfidLength: Option<int>)

  datatype Parser = Parser(dateFormatter: DateFormatter, rfidLength: int)

  /** One datagram as the transport hands it over; any field may be missing. */
  datatype Datagram = Datagram(data: Option<string>, ip: Option<string>, timestamp: Option<Time>)

  /** A successfully parsed identifier. */
  datatype Record = Record(rfid: string, formattedRFID: string, ip: string, timestamp: Time, rawData: string)

  const DefaultRfidLength: int := 10

  /** The constructor. A missing formatter selects the default one; a missing or zero
      length selects 10, because the option is combined with `|| 10`. */
  function NewParser(options: ParserOptions): (p: Parser)
    ensures p.dateFormatter.DefaultFormatter? <==> options.dateFormatter.None?
    ensures options.dateFormatter.Some? ==> p.dateFormatter.format == options.dateFormatter.value
    ensures options.rfidLength.None? || options.rfidLength.value == 0 ==> p.rfidLength == DefaultRfidLength
    ensures options.rfidLength.Some? && options.rfidLength.value != 0 ==> p.rfidLength == options.rfidLength.value
    ensures p.rfidLength != 0
  {
    var formatter := match options.dateFormatter
      case Some(f) => CustomFormatter(f)
      case None => DefaultFormatter;
    var length := match options.rfidLength
      case Some(n) => if n != 0 then n else DefaultRfidLength
      case None => DefaultRfidLength;
    Parser(formatter, length)
  }

  // ---------------------------------------------------------------------------
  // Date prefix

  /** The default formatter: the last two characters of the year, then the month
      number and the day, each zero-padded to two digits. */
  function DefaultDateFormatter(t: Time): string {
    SubstrFromEnd(IntToDecimal(t.year), 2)
      + PadStart(IntToDecimal(t.monthIndex + 1), 2, '0')
      + PadStart(IntToDecimal(t.day), 2, '0')
  }

  /** `this.dateFormatter(t)`; the default formatter reads the clock when `t` is missing. */
  function FormatDate(p: Parser, t: Option<Time>, now: Time): string {
    match p.dateFormatter
    case DefaultFormatter => DefaultDateFormatter(t.GetOr(now))
    case CustomFormatter(f) => f(t)
  }

  /** For a calendar date in a year of at least two digits the default prefix is six
      digits that read back as the year modulo 100, the month number and the day. */
  lemma DefaultDateFormatterIsYYMMDD(t: Time)
    requires CalendarDate(t) && t.year >= 10
    ensures var r := DefaultDateFormatter(t);
      && |r| == 6 && AllDigits(r)
      && DecimalValue(r[..2]) == t.year % 100
      && DecimalValue(r[2..4]) == t.monthIndex + 1
      && DecimalValue(r[4..]) == t.day
  {
    assert IntToDecimal(t.year) == NatToDecimal(t.year);
    var yy := SubstrFromEnd(NatToDecimal(t.year), 2);
    var mm := PadStart(IntToDecimal(t.monthIndex + 1), 2, '0');
    var dd := PadStart(IntToDecimal(t.day), 2, '0');
    assert DefaultDateFormatter(t) == yy + mm + dd;
    LastTwoDigits(t.year);
    TwoDigitField(t.monthIndex + 1);
    TwoDigitField(t.day);
    ThreeFields(yy, mm, dd);
  }

  /** Three two-digit fields side by side: six digits, each field at its own offset. */
  lemma ThreeFields(yy: string, mm: string, dd: string)
    requires |yy| == 2 && |mm| == 2 && |dd| == 2
    requires AllDigits(yy) && AllDigits(mm) && AllDigits(dd)
    ensures var r := yy + mm + dd;
      && |r| == 6 && AllDigits(r)
      && DecimalValue(r[..2]) == DecimalValue(yy)
      && DecimalValue(r[2..4]) == DecimalValue(mm)
      && DecimalValue(r[4..]) == DecimalValue(dd)
  {
    var r := yy + mm + dd;
    assert r[..2] == yy && r[2..4] == mm && r[4..] == dd;
    forall i | 0 <= i < 6
      ensures IsDigit(r[i])
    {
      if i < 2 {
        assert r[i] == yy[i];
      } else if i < 4 {
        assert r[i] == mm[i - 2];
      } else {
        assert r[i] == dd[i - 4];
      }
    }
  }

  /** The last two decimal digits of `n >= 10` denote `n % 100`. */
  lemma LastTwoDigits(n: nat)
    requires n >= 10
    ensures var s := SubstrFromEnd(NatToDecimal(n), 2);
      |s| == 2 && AllDigits(s) && DecimalValue(s) == n % 100
  {
    var hi := NatToDecimal(n / 10);
    var s := NatToDecimal(n);
    var a := DigitChar((n / 10) % 10);
    var b := DigitChar(n % 10);
    assert s == hi + [b];
    LastDigit(n / 10);
    var last2 := SubstrFromEnd(s, 2);
    assert last2 == [a, b];
    assert last2[..1] == [a] && [a][..0] == [];
    assert DecimalValue([a]) == DigitValue(a);
    assert DecimalValue(last2) == 10 * ((n / 10) % 10) + n % 10;
    TwoLowDigits(n);
  }

  lemma TwoLowDigits(n: nat)
    ensures n % 100 == 10 * ((n / 10) % 10) + n % 10
  {
    var q, d0 := n / 10, n % 10;
    var p, d1 := q / 10, q % 10;
    assert n == 10 * q + d0;
    assert q == 10 * p + d1;
    assert n == 100 * p + (10 * d1 + d0);
    assert 0 <= 10 * d1 + d0 < 100;
    ModOfDecomposition(n, p, 10 * d1 + d0);
  }

  lemma ModOfDecomposition(n: int, p: int, r: int)
    requires n == 100 * p + r && 0 <= r < 100
    ensures n % 100 == r
  {
  }

  lemma LastDigit(n: nat)
    ensures var s := NatToDecimal(n); s[|s| - 1] == DigitChar(n % 10)
  {
  }

  /** A number below 100 written and zero-padded to two digits reads back as itself. */
  lemma TwoDigitField(n: nat)
    requires n < 100
    ensures var s := PadStart(IntToDecimal(n), 2, '0');
      |s| == 2 && AllDigits(s) && DecimalValue(s) == n
  {
    assert IntToDecimal(n) == NatToDecimal(n);
    if n < 10 {
      assert NatToDecimal(n) == [DigitChar(n)];
      assert PadStart([DigitChar(n)], 2, '0') == ['0', DigitChar(n)];
      DecimalValueOfPair('0', DigitChar(n));
    } else {
      assert NatToDecimal(n) == [DigitChar(n / 10), DigitChar(n % 10)] by {
        assert NatToDecimal(n / 10) == [DigitChar(n / 10)];
      }
      DecimalValueOfPair(DigitChar(n / 10), DigitChar(n % 10));
    }
  }

  lemma DecimalValueOfPair(a: char, b: char)
    requires IsDigit(a) && IsDigit(b)
    ensures DecimalValue([a, b]) == 10 * DigitValue(a) + DigitValue(b)
  {
    assert [a, b][..1] == [a] && [a][..0] == [];
    assert DecimalValue([a]) == DigitValue(a);
    assert [a, b][1] == b;
  }

  // ---------------------------------------------------------------------------
  // Hex decoding

  /** The code unit a slice of at most two hex characters decodes to:
      `String.fromCharCode(parseInt(slice, 16))`. Longer slices never occur. */
  function DecodeUnit(slice: string): char {
    if |slice| <= 2 then
      ParseIntHexOfPairBounded(slice);
      FromCharCode(ParseIntHex(slice))
    else '\0'
  }

  /** `hexToAscii`: one code unit per two characters of `hex`; a trailing odd
      character is decoded on its own. Nothing is rejected. */
  function HexToAscii(hex: string): (text: string)
    ensures |text| == (|hex| + 1) / 2
  {
    DecodeSlices(hex, DecodeUnit)
  }

  /** The loop of `hexToAscii`, for any per-slice decoder: it walks `hex` two
      characters at a time and decodes each slice. */
  function DecodeSlices(hex: string, decode: string -> char): (text: string)
    ensures |text| == (|hex| + 1) / 2
    decreases |hex|
  {
    if |hex| == 0 then ""
    else if |hex| == 1 then [decode(hex)]
    else [decode(hex[..2])] + DecodeSlices(hex[2..], decode)
  }

  /** Code unit `i` of the decoded text comes from characters `2i` and `2i+1` of the
      payload, or from the last character alone when the payload has odd length. */
  lemma HexToAsciiPairs(hex: string)
    ensures forall i :: 0 <= i < |hex| / 2 ==> HexToAscii(hex)[i] == DecodeUnit(hex[2 * i..2 * i + 2])
    ensures |hex| % 2 == 1 ==> HexToAscii(hex)[|hex| / 2] == DecodeUnit([hex[|hex| - 1]])
  {
    DecodeSlicesPairs(hex, DecodeUnit);
  }

  lemma {:induction false} DecodeSlicesPairs(hex: string, decode: string -> char)
    ensures forall i :: 0 <= i < |hex| / 2 ==> DecodeSlices(hex, decode)[i] == decode(hex[2 * i..2 * i + 2])
    ensures |hex| % 2 == 1 ==> DecodeSlices(hex, decode)[|hex| / 2] == decode([hex[|hex| - 1]])
    decreases |hex|
  {
    if |hex| >= 2 {
      var rest := hex[2..];
      DecodeSlicesPairs(rest, decode);
      forall i | 1 <= i < |hex| / 2
        ensures DecodeSlices(hex, decode)[i] == decode(hex[2 * i..2 * i + 2])
      {
        assert DecodeSlices(hex, decode)[i] == DecodeSlices(rest, decode)[i - 1];
        assert rest[2 * (i - 1)..2 * (i - 1) + 2] == hex[2 * i..2 * i + 2];
      }
      if |hex| % 2 == 1 {
        assert DecodeSlices(hex, decode)[|hex| / 2] == DecodeSlices(rest, decode)[|rest| / 2];
        assert rest[|rest| - 1] == hex[|hex| - 1];
      }
    } else if |hex| == 1 {
      assert hex == [hex[0]];
    }
  }

  /** Two lower-case hex digits for one byte. */
  function ByteToHex(b: nat): (pair: string)
    requires b < 256
    ensures |pair| == 2 && AllHexDigits(pair) && HexValue(pair) == b
  {
    var pair := [HexDigitChar(b / 16), HexDigitChar(b % 16)];
    assert pair[..1] == [pair[0]] && pair[..1][..0] == [];
    assert HexValue(pair[..1]) == b / 16;
    pair
  }

  predicate ByteString(text: string) {
    forall i :: 0 <= i < |text| ==> text[i] as int < 256
  }

  /** The payload encoding the transport uses, `Buffer.toString('hex')`: every byte as two
      lower-case hex digits. */
  function HexEncode(text: string): (hex: string)
    requires ByteString(text)
    ensures |hex| == 2 * |text| && AllHexDigits(hex)
  {
    if |text| == 0 then "" else ByteToHex(text[0] as int) + HexEncode(text[1..])
  }

  /** Decoding the hex encoding of a byte string gives the byte string back. */
  lemma HexRoundTrip(text: string)
    requires ByteString(text)
    ensures HexToAscii(HexEncode(text)) == text
  {
    forall b: nat | b < 256
      ensures DecodeUnit(ByteToHex(b)) as int == b
    {
      DecodeByte(b as char);
    }
    DecodeSlicesOfEncoding(text, DecodeUnit);
  }

  /** The slice loop inverts the hex encoding for any decoder that inverts it on bytes. */
  lemma {:induction false} DecodeSlicesOfEncoding(text: string, decode: string -> char)
    requires ByteString(text)
    requires forall b: nat :: b < 256 ==> decode(ByteToHex(b)) as int == b
    ensures DecodeSlices(HexEncode(text), decode) == text
    decreases |text|
  {
    if |text| > 0 {
      var hex := HexEncode(text);
      assert hex[..2] == ByteToHex(text[0] as int);
      assert hex[2..] == HexEncode(text[1..]);
      assert decode(ByteToHex(text[0] as int)) as int == text[0] as int;
      DecodeSlicesOfEncoding(text[1..], decode);
    }
  }

  /** A byte's two hex digits decode back to that byte. */
  lemma DecodeByte(c: char)
    requires c as int < 256
    ensures DecodeUnit(ByteToHex(c as int)) == c
  {
    var pair := ByteToHex(c as int);
    ParseIntHexOfHexDigits(pair);
    assert FromCharCode(Some(c as int)) as int == c as int;
  }

  // How lenient decoding treats every slice, stated independently of `parseInt`.

  /** The code unit a one-character slice decodes to: its digit value, or 0 (NaN)
      when it is not a hex digit. */
  function SingleCode(a: char): nat {
    if IsHexDigit(a) then HexDigitValue(a) else 0
  }

  /** The code unit a two-character slice decodes to, by cases on its first character:
      a blank or `+` leaves the second character alone; `-` negates it, wrapping around
      modulo 2^16; `0x`/`0X` is a radix prefix with no digits (NaN, so 0); a hex digit is
      read together with a following hex digit, or alone ("3g" is 3); anything else is
      NaN ("zz" is 0). */
  function PairCode(a: char, b: char): nat {
    if IsWhitespace(a) || a == '+' then SingleCode(b)
    else if a == '-' then (if SingleCode(b) == 0 then 0 else 0x1_0000 - SingleCode(b))
    else if !IsHexDigit(a) then 0
    else if a == '0' && (b == 'x' || b == 'X') then 0
    else if IsHexDigit(b) then 16 * HexDigitValue(a) + HexDigitValue(b)
    else HexDigitValue(a)
  }

  lemma DecodeUnitOfSingle(a: char)
    ensures DecodeUnit([a]) as int == SingleCode(a)
  {
    ParseIntHexOfSingle(a);
    assert DecodeUnit([a]) == FromCharCode(ParseIntHex([a]));
    SingleCodeOfSingleValue(a);
  }

  /** Every two-character slice decodes as `PairCode` says. */
  lemma DecodeUnitOfPair(a: char, b: char)
    ensures DecodeUnit([a, b]) as int == PairCode(a, b)
  {
    ParseIntHexOfPair(a, b);
    PairValueBounded(a, b);
    assert DecodeUnit([a, b]) == FromCharCode(ParseIntHex([a, b]));
    PairCodeOfPairValue(a, b);
  }

  lemma SingleCodeOfSingleValue(a: char)
    ensures FromCharCode(SingleValue(a)) as int == SingleCode(a)
  {
  }

  /** `PairCode` is `String.fromCharCode` of what `parseInt` reads from the pair. */
  lemma PairCodeOfPairValue(a: char, b: char)
    ensures PairValue(a, b).Some? ==> -15 <= PairValue(a, b).value <= 255
    ensures FromCharCode(PairValue(a, b)) as int == PairCode(a, b)
  {
    PairValueBounded(a, b);
    if IsWhitespace(a) || a == '+' {
      SingleCodeOfSingleValue(b);
    } else if a == '-' {
      NegatedCode(b);
    }
  }

  /** A minus sign before a digit wraps around modulo 2^16. */
  lemma NegatedCode(b: char)
    ensures FromCharCode(PairValue('-', b)) as int == PairCode('-', b)
  {
    if IsHexDigit(b) {
      var v: int := HexDigitValue(b);
      assert PairValue('-', b) == Some(-v);
      assert v != 0 ==> (-v) % 0x1_0000 == 0x1_0000 - v;
    }
  }

  /** Code unit `i` of the decoded text is `PairCode` of characters `2i` and `2i+1`,
      and a trailing odd character gives `SingleCode` of itself. */
  lemma HexToAsciiCodes(hex: string)
    ensures forall i :: 0 <= i < |hex| / 2 ==> HexToAscii(hex)[i] as int == PairCode(hex[2 * i], hex[2 * i + 1])
    ensures |hex| % 2 == 1 ==> HexToAscii(hex)[|hex| / 2] as int == SingleCode(hex[|hex| - 1])
  {
    HexToAsciiPairs(hex);
    forall i | 0 <= i < |hex| / 2
      ensures HexToAscii(hex)[i] as int == PairCode(hex[2 * i], hex[2 * i + 1])
    {
      assert hex[2 * i..2 * i + 2] == [hex[2 * i], hex[2 * i + 1]];
      DecodeUnitOfPair(hex[2 * i], hex[2 * i + 1]);
    }
    if |hex| % 2 == 1 {
      DecodeUnitOfSingle(hex[|hex| - 1]);
    }
  }

  // ---------------------------------------------------------------------------
  // Validation and parsing

  /** The regular expression `^\d+$`: one or more ASCII digits. */
  function MatchesDigitRun(s: string): (m: bool)
    ensures m <==> |s| > 0 && AllDigits(s)
  {
    |s| > 0 && IsDigit(s[0]) && (|s| == 1 || MatchesDigitRun(s[1..]))
  }

  /** `validateRFID`: an empty candidate is rejected, then its length must equal the
      configured length and it must match `^\d+$`. */
  function ValidateRFID(p: Parser, rfid: string): (valid: bool)
    ensures valid <==> |rfid| == p.rfidLength && |rfid| > 0 && AllDigits(rfid)
  {
    if rfid == "" || |rfid| != p.rfidLength then false else MatchesDigitRun(rfid)
  }

  /** The candidate identifier of a payload: the digits of its trimmed decoded text. */
  function Candidate(hex: string): string {
    StripNonDigits(Trim(HexToAscii(hex)))
  }

  /** `parse`. A missing datagram (destructuring `null` throws and the exception is
      caught), a missing or empty payload or address, or a candidate that fails
      validation yields `None`; otherwise a record whose timestamp is the datagram's
      own or the current time. */
  function Parse(p: Parser, raw: Option<Datagram>, now: Time): (r: Option<Record>)
    ensures raw.None? ==> r.None?
    ensures raw.Some? && !(Truthy(raw.value.data) && Truthy(raw.value.ip)) ==> r.None?
    ensures raw.Some? && Truthy(raw.value.data) && Truthy(raw.value.ip) ==>
      (r.Some? <==> ValidateRFID(p, StripNonDigits(HexToAscii(raw.value.data.value))))
    ensures r.Some? ==>
      var d := raw.value;
      && d.data.Some? && d.ip.Some?
      && r.value.rfid == StripNonDigits(HexToAscii(d.data.value))
      && |r.value.rfid| == p.rfidLength && AllDigits(r.value.rfid)
      && r.value.timestamp == d.timestamp.GetOr(now)
      && r.value.formattedRFID == FormatDate(p, Some(r.value.timestamp), now) + "-" + r.value.rfid
      && r.value.ip == d.ip.value
      && r.value.rawData == d.data.value
  {
    match raw
    case None => None
    case Some(d) =>
      if !Truthy(d.data) || !Truthy(d.ip) then None
      else
        var hex := d.data.value;
        var rfid := Candidate(hex);
        TrimKeepsDigits(HexToAscii(hex));
        if !ValidateRFID(p, rfid) then None
        else
          var timestamp := d.timestamp.GetOr(now);
          Some(Record(rfid, FormatDate(p, Some(timestamp), now) + "-" + rfid, d.ip.value, timestamp, hex))
  }

  /** `formatRFID`: prefix, separator, identifier; the prefix defaults to the formatter
      called without an argument and the separator to `-`. */
  function FormatRFID(p: Parser, rfid: string, prefix: Option<string>, separator: Option<string>, now: Time): (r: string)
    ensures var pre := prefix.GetOr(FormatDate(p, None, now));
      var sep := separator.GetOr("-");
      && |r| == |pre| + |sep| + |rfid|
      && r[..|pre|] == pre
      && r[|pre|..|pre| + |sep|] == sep
      && r[|pre| + |sep|..] == rfid
    ensures prefix.Some? ==> |r| >= |prefix.value| && r[..|prefix.value|] == prefix.value
    ensures separator.None? ==> |r| > |rfid| && r[|r| - |rfid| - 1] == '-'
  {
    prefix.GetOr(FormatDate(p, None, now)) + separator.GetOr("-") + rfid
  }

  // ---------------------------------------------------------------------------
  // Properties

  /** A digit string sent through the transport's hex encoding comes back from decoding,
      trimming and stripping unchanged. */
  lemma DigitsSurviveEncoding(digits: string)
    requires AllDigits(digits)
    ensures ByteString(digits)
    ensures Candidate(HexEncode(digits)) == digits
  {
    assert ByteString(digits);
    HexRoundTrip(digits);
    TrimKeepsDigits(digits);
    StripNonDigitsFixesDigits(digits);
  }

  /** Parsing a hex-encoded digit string succeeds exactly when it has the configured
      length, and then returns those digits behind the date of the datagram. */
  lemma ParseEncodedDigits(p: Parser, digits: string, ip: string, timestamp: Option<Time>, now: Time)
    requires AllDigits(digits) && ip != "" && p.rfidLength != 0
    ensures ByteString(digits)
    ensures var r := Parse(p, Some(Datagram(Some(HexEncode(digits)), Some(ip), timestamp)), now);
      && (r.Some? <==> |digits| == p.rfidLength)
      && (r.Some? ==> r.value.rfid == digits
                      && r.value.formattedRFID == FormatDate(p, Some(timestamp.GetOr(now)), now) + "-" + digits)
  {
    DigitsSurviveEncoding(digits);
    var hex := HexEncode(digits);
    assert StripNonDigits(HexToAscii(hex)) == digits by {
      HexRoundTrip(digits);
      StripNonDigitsFixesDigits(digits);
    }
    ParseOfDigitPayload(p, hex, digits, ip, timestamp, now);
  }

  /** Any payload, whatever separators or control characters its decoded text holds
      besides the digits, parses exactly when those digits have the configured length,
      and then yields them behind the date of the datagram. */
  lemma ParseOfDigitPayload(p: Parser, hex: string, digits: string, ip: string, timestamp: Option<Time>, now: Time)
    requires AllDigits(digits) && ip != "" && p.rfidLength != 0
    requires StripNonDigits(HexToAscii(hex)) == digits
    ensures var r := Parse(p, Some(Datagram(Some(hex), Some(ip), timestamp)), now);
      && (r.Some? <==> |digits| == p.rfidLength)
      && (r.Some? ==> r.value.rfid == digits
                      && r.value.formattedRFID == FormatDate(p, Some(timestamp.GetOr(now)), now) + "-" + digits)
  {
    if hex == "" {
      assert HexToAscii(hex) == "";
    }
    assert ValidateRFID(p, digits) <==> |digits| == p.rfidLength;
  }

  /** Re-formatting a parsed identifier with the default options under the default
      formatter, on the day the datagram was stamped, reproduces its formatted form. */
  lemma FormatRFIDReproducesParse(p: Parser, raw: Datagram, now: Time)
    requires p.dateFormatter.DefaultFormatter?
    requires raw.timestamp.None? || raw.timestamp == Some(now)
    requires Parse(p, Some(raw), now).Some?
    ensures var r := Parse(p, Some(raw), now).value;
      FormatRFID(p, r.rfid, None, None, now) == r.formattedRFID
  {
  }

  /** The default configuration accepts exactly the ten-digit candidates. */
  lemma DefaultLengthIsTen(rfid: string)
    ensures ValidateRFID(NewParser(ParserOptions(None, None)), rfid) <==> |rfid| == 10 && AllDigits(rfid)
    ensures ValidateRFID(NewParser(ParserOptions(None, Some(0))), rfid) <==> |rfid| == 10 && AllDigits(rfid)
  {
  }
}
