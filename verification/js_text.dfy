/** The ECMAScript string and number primitives the parser is built from:
    truthiness of a string, `trim`, the `\d` / `\D` character classes, integer
    `toString`, `padStart`, `substr(-n)`, `parseInt(s, 16)` and `String.fromCharCode`.
    A JavaScript string is a sequence of UTF-16 code units, while a Dafny `char` is a
    Unicode scalar value. The two agree on text within the Basic Multilingual Plane
    without surrogates, which is the text this model covers: a character beyond that
    plane is one `char` here but two code units in JavaScript, and a lone surrogate
    has no `char` at all. Every code unit `fromCharCode` yields outside the surrogate
    range is a Dafny `char`. */
module JsText {
  import opened Wrappers

  /** A string property is truthy when it is present and not the empty string. */
  predicate Truthy(s: Option<string>) {
    s.Some? && s.value != ""
  }

  /** The WhiteSpace and LineTerminator code points of ECMAScript, which both
      `String.prototype.trim` and `parseInt` skip: tab, line feed, vertical tab,
      form feed, carriage return and space, then the wider ones. */
  predicate IsWhitespace(c: char) {
    ('\t' <= c <= '\r') || c == ' ' || ('\U{A0}' <= c && IsWideWhitespace(c))
  }

  /** No-break space, the Unicode space separators, the line and paragraph
      separators and the byte-order mark. */
  predicate IsWideWhitespace(c: char) {
    || c == '\U{A0}' || c == '\U{1680}' || ('\U{2000}' <= c <= '\U{200A}')
    || c == '\U{2028}' || c == '\U{2029}' || c == '\U{202F}' || c == '\U{205F}'
    || c == '\U{3000}' || c == '\U{FEFF}'
  }

  /** The regular-expression class `\d` (without the `u` flag): ASCII digits only. */
  predicate IsDigit(c: char) {
    '0' <= c <= '9'
  }

  predicate AllDigits(s: string) {
    forall i :: 0 <= i < |s| ==> IsDigit(s[i])
  }

  /** A digit of radix 16, in either case. */
  predicate IsHexDigit(c: char) {
    IsDigit(c) || 'a' <= c <= 'f' || 'A' <= c <= 'F'
  }

  predicate AllHexDigits(s: string) {
    forall i :: 0 <= i < |s| ==> IsHexDigit(s[i])
  }

  function DigitValue(c: char): (v: nat)
    requires IsDigit(c)
    ensures v < 10
  {
    c as int - '0' as int
  }

  function HexDigitValue(c: char): (v: nat)
    requires IsHexDigit(c)
    ensures v < 16
    ensures IsDigit(c) ==> v == DigitValue(c)
  {
    if IsDigit(c) then c as int - '0' as int
    else if 'a' <= c <= 'f' then c as int - 'a' as int + 10
    else c as int - 'A' as int + 10
  }

  function DigitChar(d: nat): (c: char)
    requires d < 10
    ensures IsDigit(c) && DigitValue(c) == d
  {
    ('0' as int + d) as char
  }

  /** The lower-case radix-16 digit for `d`, as `Buffer.toString('hex')` writes it. */
  function HexDigitChar(d: nat): (c: char)
    requires d < 16
    ensures IsHexDigit(c) && HexDigitValue(c) == d
    ensures c != 'x' && c != 'X' && c != '-' && c != '+' && !IsWhitespace(c)
  {
    if d < 10 then ('0' as int + d) as char else ('a' as int + d - 10) as char
  }

  // ---------------------------------------------------------------------------
  // trim and the \D replacement

  /** `trimStart`: drops leading whitespace. */
  function TrimStart(s: string): (r: string)
    ensures |r| <= |s| && r == s[|s| - |r|..]
    ensures forall i :: 0 <= i < |s| - |r| ==> IsWhitespace(s[i])
    ensures |r| > 0 ==> !IsWhitespace(r[0])
  {
    if |s| > 0 && IsWhitespace(s[0]) then TrimStart(s[1..]) else s
  }

  /** `trimEnd`: drops trailing whitespace. */
  function TrimEnd(s: string): (r: string)
    ensures |r| <= |s| && r == s[..|r|]
    ensures forall i :: |r| <= i < |s| ==> IsWhitespace(s[i])
    ensures |r| > 0 ==> !IsWhitespace(r[|r| - 1])
  {
    if |s| > 0 && IsWhitespace(s[|s| - 1]) then TrimEnd(s[..|s| - 1]) else s
  }

  /** `String.prototype.trim`: the slice left after cutting whitespace off both ends. */
  function Trim(s: string): (r: string)
    ensures exists i, j :: && 0 <= i <= j <= |s| && r == s[i..j]
                           && (forall k :: 0 <= k < i ==> IsWhitespace(s[k]))
                           && (forall k :: j <= k < |s| ==> IsWhitespace(s[k]))
    ensures |r| > 0 ==> !IsWhitespace(r[0]) && !IsWhitespace(r[|r| - 1])
  {
    var t := TrimStart(s);
    var r := TrimEnd(t);
    var i, j := |s| - |t|, |s| - |t| + |r|;
    assert r == s[i..j];
    assert forall k :: j <= k < |s| ==> s[k] == t[k - i];
    r
  }

  /** `s.replace(/\D/g, '')`: the digits of `s`, in order. */
  function StripNonDigits(s: string): (r: string)
    ensures |r| <= |s|
    ensures AllDigits(r)
    ensures forall c :: c in r <==> c in s && IsDigit(c)
  {
    if |s| == 0 then ""
    else (if IsDigit(s[0]) then [s[0]] else []) + StripNonDigits(s[1..])
  }

  /** Stripping distributes over concatenation, so it keeps the order of the digits. */
  lemma {:induction false} StripNonDigitsAppend(a: string, b: string)
    ensures StripNonDigits(a + b) == StripNonDigits(a) + StripNonDigits(b)
    decreases |a|
  {
    if |a| == 0 {
      assert a + b == b;
    } else {
      assert (a + b)[1..] == a[1..] + b;
      StripNonDigitsAppend(a[1..], b);
    }
  }

  /** A string that is digits only is its own digit-subsequence, and conversely. */
  lemma {:induction false} StripNonDigitsFixesDigits(s: string)
    ensures StripNonDigits(s) == s <==> AllDigits(s)
    decreases |s|
  {
    if |s| > 0 {
      StripNonDigitsFixesDigits(s[1..]);
      if !IsDigit(s[0]) {
        assert |StripNonDigits(s)| < |s|;
      }
    }
  }

  /** Trimming first never changes which digits are found. */
  lemma TrimKeepsDigits(s: string)
    ensures StripNonDigits(Trim(s)) == StripNonDigits(s)
  {
    TrimStartKeepsDigits(s);
    TrimEndKeepsDigits(TrimStart(s));
  }

  lemma {:induction false} TrimStartKeepsDigits(s: string)
    ensures StripNonDigits(TrimStart(s)) == StripNonDigits(s)
    decreases |s|
  {
    if |s| > 0 && IsWhitespace(s[0]) {
      TrimStartKeepsDigits(s[1..]);
    }
  }

  lemma {:induction false} TrimEndKeepsDigits(s: string)
    ensures StripNonDigits(TrimEnd(s)) == StripNonDigits(s)
    decreases |s|
  {
    if |s| > 0 && IsWhitespace(s[|s| - 1]) {
      var init := s[..|s| - 1];
      assert s == init + [s[|s| - 1]];
      StripNonDigitsAppend(init, [s[|s| - 1]]);
      TrimEndKeepsDigits(init);
    }
  }

  // ---------------------------------------------------------------------------
  // integer toString, padStart and substr(-n)

  /** `n.toString()` for a non-negative integer: decimal, no leading zeros. */
  function NatToDecimal(n: nat): (r: string)
    ensures |r| > 0 && AllDigits(r)
    ensures n < 10 <==> |r| == 1
    decreases n
  {
    if n < 10 then [DigitChar(n)] else NatToDecimal(n / 10) + [DigitChar(n % 10)]
  }

  /** The number a digit string denotes (most significant digit first). */
  function DecimalValue(s: string): nat
    requires AllDigits(s)
  {
    if |s| == 0 then 0 else 10 * DecimalValue(s[..|s| - 1]) + DigitValue(s[|s| - 1])
  }

  /** Reading back a written number gives that number. */
  lemma {:induction false} DecimalRoundTrip(n: nat)
    ensures DecimalValue(NatToDecimal(n)) == n
    decreases n
  {
    if n >= 10 {
      var s := NatToDecimal(n);
      assert s[..|s| - 1] == NatToDecimal(n / 10);
      DecimalRoundTrip(n / 10);
    }
  }

  /** `i.toString()` for an integer: a minus sign before the magnitude when negative. */
  function IntToDecimal(i: int): string {
    if i < 0 then "-" + NatToDecimal(-i) else NatToDecimal(i)
  }

  /** `s.padStart(width, fill)` with a one-character fill string. */
  function PadStart(s: string, width: nat, fill: char): (r: string)
    ensures |r| == if |s| >= width then |s| else width
    ensures r[|r| - |s|..] == s
    ensures forall i :: 0 <= i < |r| - |s| ==> r[i] == fill
  {
    if |s| >= width then s else seq(width - |s|, _ => fill) + s
  }

  /** `s.substr(-n)`: the last `n` code units, or all of `s` when it is shorter. */
  function SubstrFromEnd(s: string, n: nat): (r: string)
    ensures |r| == if |s| < n then |s| else n
    ensures r == s[|s| - |r|..]
  {
    if |s| < n then s else s[|s| - n..]
  }

  // ---------------------------------------------------------------------------
  // parseInt(s, 16) and String.fromCharCode

  /** The longest prefix of `s` made of radix-16 digits. */
  function HexDigitPrefix(s: string): (r: string)
    ensures |r| <= |s| && r == s[..|r|]
    ensures AllHexDigits(r)
    ensures |r| < |s| ==> !IsHexDigit(s[|r|])
  {
    if |s| > 0 && IsHexDigit(s[0]) then [s[0]] + HexDigitPrefix(s[1..]) else ""
  }

  /** The number a radix-16 digit string denotes (most significant digit first). */
  function HexValue(s: string): nat
    requires AllHexDigits(s)
  {
    if |s| == 0 then 0 else 16 * HexValue(s[..|s| - 1]) + HexDigitValue(s[|s| - 1])
  }

  /** `parseInt(s, 16)`, with `None` for NaN. Following the ECMAScript algorithm: skip
      leading whitespace, take one optional sign, drop a `0x`/`0X` prefix, then read
      the longest run of radix-16 digits; an empty run is NaN. A negative zero is
      returned as 0, which `String.fromCharCode` cannot tell apart from it. */
  function ParseIntHex(s: string): Option<int> {
    ParseSigned(TrimStart(s))
  }

  /** `parseInt` after the leading whitespace: an optional sign, then the magnitude. */
  function ParseSigned(t: string): Option<int> {
    var magnitude := ParseMagnitude(DropSign(t));
    if |t| > 0 && t[0] == '-' then
      match magnitude
      case None => None
      case Some(v) => Some(-v)
    else magnitude
  }

  /** `parseInt` after the sign: an optional `0x` prefix, then the longest run of hex digits. */
  function ParseMagnitude(u: string): (r: Option<int>)
    ensures r.Some? ==> r.value >= 0
  {
    var digits := HexDigitPrefix(DropHexPrefix(u));
    if |digits| == 0 then None else Some(HexValue(digits))
  }

  /** Drops one leading `+` or `-`. */
  function DropSign(t: string): (r: string)
    ensures |r| <= |t| && r == t[|t| - |r|..]
    ensures |t| > 0 && t[0] == '-' ==> |r| == |t| - 1
  {
    if |t| > 0 && (t[0] == '-' || t[0] == '+') then t[1..] else t
  }

  /** Drops a leading `0x` or `0X`. */
  function DropHexPrefix(u: string): (r: string)
    ensures |r| <= |u| && r == u[|u| - |r|..]
  {
    if |u| >= 2 && u[0] == '0' && (u[1] == 'x' || u[1] == 'X') then u[2..] else u
  }

  /** On a string of radix-16 digits `parseInt` reads exactly that number. */
  lemma ParseIntHexOfHexDigits(s: string)
    requires |s| > 0 && AllHexDigits(s)
    ensures ParseIntHex(s) == Some(HexValue(s))
  {
    HexIsNotBlank(s[0]);
    ParseIntHexOfUnsigned(s);
    MagnitudeOfHexDigits(s);
  }

  /** Without blank or sign in front, `parseInt` reads just the magnitude. */
  lemma ParseIntHexOfUnsigned(s: string)
    requires |s| > 0 && !IsWhitespace(s[0]) && s[0] != '-' && s[0] != '+'
    ensures ParseIntHex(s) == ParseMagnitude(s)
  {
    TrimStartOfUnblank(s);
    assert DropSign(s) == s;
  }

  lemma MagnitudeOfHexDigits(s: string)
    requires |s| > 0 && AllHexDigits(s)
    ensures ParseMagnitude(s) == Some(HexValue(s))
  {
    if |s| >= 2 {
      assert IsHexDigit(s[1]);
    }
    assert DropHexPrefix(s) == s;
    HexDigitPrefixOfHexDigits(s);
  }

  /** `parseInt` skips a leading whitespace character. */
  lemma ParseIntHexSkipsWhitespace(c: char, s: string)
    requires IsWhitespace(c)
    ensures ParseIntHex([c] + s) == ParseIntHex(s)
  {
    assert ([c] + s)[1..] == s;
  }

  lemma {:induction false} HexDigitPrefixOfHexDigits(s: string)
    requires AllHexDigits(s)
    ensures HexDigitPrefix(s) == s
    decreases |s|
  {
    if |s| > 0 {
      HexDigitPrefixOfHexDigits(s[1..]);
    }
  }

  /** At most two code units never denote more than 255, and after a sign at most 15:
      so `parseInt` of a pair lies in -15..255. */
  lemma ParseIntHexOfPairBounded(s: string)
    requires |s| <= 2
    ensures ParseIntHex(s).Some? ==> -15 <= ParseIntHex(s).value <= 255
  {
    if |s| == 0 {
      assert TrimStart(s) == [] && DropSign([]) == [];
      MagnitudeOfEmpty();
    } else if |s| == 1 {
      assert s == [s[0]];
      ParseIntHexOfSingle(s[0]);
    } else {
      assert s == [s[0], s[1]];
      ParseIntHexOfPair(s[0], s[1]);
      PairValueBounded(s[0], s[1]);
    }
  }

  lemma PairValueBounded(a: char, b: char)
    ensures PairValue(a, b).Some? ==> -15 <= PairValue(a, b).value <= 255
  {
    if IsWhitespace(a) || a == '+' || a == '-' {
    } else if IsHexDigit(a) && IsHexDigit(b) {
      assert 16 * HexDigitValue(a) + HexDigitValue(b) <= 255;
    }
  }

  /** What `parseInt(s, 16)` reads from a one-character string, stated without the
      general algorithm: the digit's value, or NaN. */
  function SingleValue(a: char): Option<int> {
    if IsHexDigit(a) then Some(HexDigitValue(a)) else None
  }

  /** What `parseInt(s, 16)` reads from a two-character string, by cases on the first
      character: a blank or `+` leaves the second character alone, `-` negates it, `0x`
      and `0X` are a radix prefix with no digits after it, a hex digit is read together
      with a following hex digit or alone, and anything else is NaN. */
  function PairValue(a: char, b: char): Option<int> {
    if IsWhitespace(a) || a == '+' then SingleValue(b)
    else if a == '-' then (match SingleValue(b) case None => None case Some(v) => Some(-v))
    else if !IsHexDigit(a) || (a == '0' && (b == 'x' || b == 'X')) then None
    else if IsHexDigit(b) then Some(16 * HexDigitValue(a) + HexDigitValue(b))
    else Some(HexDigitValue(a))
  }

  /** `parseInt` agrees with `SingleValue` on every one-character string. */
  lemma ParseIntHexOfSingle(a: char)
    ensures ParseIntHex([a]) == SingleValue(a)
  {
    if IsWhitespace(a) {
      ParseIntHexOfSingleBlank(a);
    } else if a == '-' || a == '+' {
      ParseIntHexOfSingleSign(a);
    } else {
      ParseIntHexOfUnsigned([a]);
      MagnitudeOfSingle(a);
    }
  }

  /** `parseInt` agrees with `PairValue` on every two-character string. */
  lemma ParseIntHexOfPair(a: char, b: char)
    ensures ParseIntHex([a, b]) == PairValue(a, b)
  {
    if IsWhitespace(a) {
      assert [a, b] == [a] + [b];
      ParseIntHexSkipsWhitespace(a, [b]);
      ParseIntHexOfSingle(b);
    } else if a == '-' || a == '+' {
      ParseIntHexOfSignedPair(a, b);
    } else {
      ParseIntHexOfUnsigned([a, b]);
      MagnitudeOfPair(a, b);
    }
  }

  lemma ParseIntHexOfSignedPair(a: char, b: char)
    requires a == '-' || a == '+'
    ensures ParseIntHex([a, b]) == PairValue(a, b)
  {
    TrimStartOfUnblank([a, b]);
    assert DropSign([a, b]) == [b];
    MagnitudeOfSingle(b);
  }

  lemma BlankIsNotHex(c: char)
    requires IsWhitespace(c)
    ensures !IsHexDigit(c)
  {
  }

  lemma HexIsNotBlank(c: char)
    requires IsHexDigit(c)
    ensures !IsWhitespace(c) && c != '-' && c != '+'
  {
  }

  lemma TrimStartOfUnblank(s: string)
    requires |s| > 0 && !IsWhitespace(s[0])
    ensures TrimStart(s) == s
  {
  }

  lemma ParseIntHexOfSingleBlank(a: char)
    requires IsWhitespace(a)
    ensures ParseIntHex([a]) == None == SingleValue(a)
  {
    BlankIsNotHex(a);
    assert [a][1..] == [];
    assert TrimStart([a]) == [];
    assert DropSign([]) == [];
    MagnitudeOfEmpty();
  }

  lemma ParseIntHexOfSingleSign(a: char)
    requires a == '-' || a == '+'
    ensures ParseIntHex([a]) == None == SingleValue(a)
  {
    TrimStartOfUnblank([a]);
    assert DropSign([a]) == [];
    MagnitudeOfEmpty();
  }

  lemma MagnitudeOfEmpty()
    ensures ParseMagnitude([]) == None
  {
    assert DropHexPrefix([]) == [];
    assert HexDigitPrefix([]) == [];
  }

  lemma MagnitudeOfSingle(b: char)
    ensures ParseMagnitude([b]) == SingleValue(b)
  {
    assert DropHexPrefix([b]) == [b];
    if IsHexDigit(b) {
      assert [b][1..] == [];
      assert HexDigitPrefix([b]) == [b];
      assert [b][..0] == [];
      assert HexValue([b]) == HexDigitValue(b);
    } else {
      assert HexDigitPrefix([b]) == [];
    }
  }

  lemma MagnitudeOfPair(a: char, b: char)
    requires a != '-' && a != '+' && !IsWhitespace(a)
    ensures ParseMagnitude([a, b]) == PairValue(a, b)
  {
    if a == '0' && (b == 'x' || b == 'X') {
      assert DropHexPrefix([a, b]) == [];
      MagnitudeOfEmpty();
    } else {
      assert DropHexPrefix([a, b]) == [a, b];
      if !IsHexDigit(a) {
        assert HexDigitPrefix([a, b]) == [];
      } else if IsHexDigit(b) {
        PairOfHexDigits(a, b);
      } else {
        assert [a, b][1..] == [b];
        assert HexDigitPrefix([b]) == [];
        assert HexDigitPrefix([a, b]) == [a];
        assert [a][..0] == [];
        assert HexValue([a]) == HexDigitValue(a);
      }
    }
  }

  lemma PairOfHexDigits(a: char, b: char)
    requires IsHexDigit(a) && IsHexDigit(b)
    ensures HexDigitPrefix([a, b]) == [a, b]
    ensures HexValue([a, b]) == 16 * HexDigitValue(a) + HexDigitValue(b)
  {
    assert [a, b][1..] == [b] && [b][1..] == [];
    assert HexDigitPrefix([b]) == [b];
    assert [a, b][..1] == [a] && [a][..0] == [];
    assert HexValue([a]) == HexDigitValue(a);
  }

  /** `String.fromCharCode(n)`: ToUint16 of the number, so NaN gives code 0 and a negative
      number wraps around modulo 2^16. The bound keeps the code out of the surrogate range,
      which a Dafny `char` cannot hold. */
  function FromCharCode(n: Option<int>): (c: char)
    requires n.Some? ==> -0x2000 <= n.value < 0xD800
    ensures c as int == if n.None? then 0 else n.value % 0x1_0000
  {
    if n.None? then '\0' else (n.value % 0x1_0000) as char
  }
}
