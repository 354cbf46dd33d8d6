/** Hexadecimal text as the client reads and writes it.

    Reading is `hex_to_int`, which is Python's `int(s, 16)`: surrounding
    whitespace, an optional sign, an optional `0x`/`0X` prefix (which may be
    followed by one underscore) and hexadecimal digits in either case, with
    single underscores allowed between digits. Anything else raises ValueError.

    Writing is the format `0x{v:064x}` used for account records: lower-case
    digits, zero-padded to 64 characters; a negative value gets its sign
    inside the padding, after the `0x`.
 */
module HexCodec {
  import opened Numerals
  import opened Failures

  // ---------------------------------------------------------------------------
  // Digits

  predicate IsHexDigit(c: char)
  {
    '0' <= c <= '9' || 'a' <= c <= 'f' || 'A' <= c <= 'F'
  }

  predicate IsLowerHexDigit(c: char)
  {
    '0' <= c <= '9' || 'a' <= c <= 'f'
  }

  predicate AllHex(s: string)
  {
    forall i :: 0 <= i < |s| ==> IsHexDigit(s[i])
  }

  predicate AllLowerHex(s: string)
  {
    forall i :: 0 <= i < |s| ==> IsLowerHexDigit(s[i])
  }

  function DigitValue(c: char): (d: nat)
    requires IsHexDigit(c)
    ensures d < 16
  {
    if '0' <= c <= '9' then c as int - '0' as int
    else if 'a' <= c <= 'f' then c as int - 'a' as int + 10
    else c as int - 'A' as int + 10
  }

  function LowerDigit(d: nat): (c: char)
    requires d < 16
    ensures IsLowerHexDigit(c) && DigitValue(c) == d
  {
    if d < 10 then ('0' as int + d) as char else ('a' as int + d - 10) as char
  }

  lemma LemmaLowerDigitOfValue(c: char)
    requires IsLowerHexDigit(c)
    ensures LowerDigit(DigitValue(c)) == c
  {
  }

  /** The digit values of a string of hexadecimal digits. */
  function Values(s: string): (ds: seq<nat>)
    requires AllHex(s)
    ensures |ds| == |s| && IsDigits(ds, 16)
    ensures forall i :: 0 <= i < |s| ==> ds[i] == DigitValue(s[i])
  {
    seq(|s|, i requires 0 <= i < |s| => DigitValue(s[i]))
  }

  /** The lower-case spelling of a sequence of digit values. */
  function Chars(ds: seq<nat>): (s: string)
    requires IsDigits(ds, 16)
    ensures |s| == |ds| && AllLowerHex(s) && Values(s) == ds
  {
    seq(|ds|, i requires 0 <= i < |ds| => LowerDigit(ds[i]))
  }

  /** The base-16 value of a digit string, most significant digit first. */
  function HexValue(s: string): nat
    requires AllHex(s)
  {
    FromDigits(Values(s), 16)
  }

  lemma LemmaCharsOfValues(s: string)
    requires AllLowerHex(s)
    ensures Chars(Values(s)) == s
  {
    forall i | 0 <= i < |s|
      ensures Chars(Values(s))[i] == s[i]
    {
      LemmaLowerDigitOfValue(s[i]);
    }
  }

  function ZeroChars(k: nat): (z: string)
    ensures |z| == k && AllLowerHex(z)
    ensures forall i :: 0 <= i < k ==> z[i] == '0'
  {
    seq(k, _ => '0')
  }

  lemma LemmaValuesAppend(a: string, b: string)
    requires AllHex(a) && AllHex(b)
    ensures AllHex(a + b) && Values(a + b) == Values(a) + Values(b)
  {
    assert forall i :: 0 <= i < |a + b| ==> (a + b)[i] == if i < |a| then a[i] else b[i - |a|];
  }

  lemma LemmaValuesZeroChars(k: nat)
    ensures Values(ZeroChars(k)) == Zeros(k)
  {
  }

  // ---------------------------------------------------------------------------
  // Reading: int(s, 16)

  /** The characters Python strips around a numeric literal. Among ASCII characters
      only " \t\n\v\f\r" count (the separators U+001C..U+001F do not); every
      non-ASCII white space character is turned into a blank first and so counts too. */
  predicate IsSpace(c: char)
  {
    || '\t' <= c <= '\r'
    || c == ' '
    || c == '\U{85}' || c == '\U{A0}' || c == '\U{1680}'
    || '\U{2000}' <= c <= '\U{200A}'
    || c == '\U{2028}' || c == '\U{2029}' || c == '\U{202F}' || c == '\U{205F}' || c == '\U{3000}'
  }

  function TrimLeft(s: string): string
  {
    if |s| > 0 && IsSpace(s[0]) then TrimLeft(s[1..]) else s
  }

  function TrimRight(s: string): string
  {
    if |s| > 0 && IsSpace(s[|s| - 1]) then TrimRight(s[..|s| - 1]) else s
  }

  function Strip(s: string): string
  {
    TrimRight(TrimLeft(s))
  }

  /** The literal after its optional sign. */
  function Unsigned(t: string): string
  {
    if |t| > 0 && (t[0] == '+' || t[0] == '-') then t[1..] else t
  }

  predicate HasPrefix(u: string)
  {
    |u| >= 2 && u[0] == '0' && (u[1] == 'x' || u[1] == 'X')
  }

  /** The digits of a stripped literal: after the sign, the `0x` prefix and the one
      underscore a prefix may carry. */
  function DigitPart(t: string): string
  {
    var u := Unsigned(t);
    if HasPrefix(u) then
      if |u| > 2 && u[2] == '_' then u[3..] else u[2..]
    else
      u
  }

  /** Hexadecimal digits, where single underscores may separate two digits. */
  predicate IsDigitGroups(b: string)
  {
    && |b| > 0
    && IsHexDigit(b[0])
    && IsHexDigit(b[|b| - 1])
    && (forall i :: 0 <= i < |b| ==> IsHexDigit(b[i]) || b[i] == '_')
    && (forall i :: 0 <= i < |b| - 1 ==> b[i] == '_' ==> b[i + 1] != '_')
  }

  function RemoveUnderscores(b: string): (r: string)
    ensures (forall i :: 0 <= i < |b| ==> IsHexDigit(b[i]) || b[i] == '_') ==> AllHex(r)
  {
    if |b| == 0 then []
    else (if b[0] == '_' then [] else [b[0]]) + RemoveUnderscores(b[1..])
  }

  /** `hex_to_int`, that is Python's `int(s, 16)`. */
  function HexToInt(s: string): Result<int>
  {
    ReadLiteral(Strip(s))
  }

  /** A literal with the surrounding white space already removed. */
  function ReadLiteral(t: string): Result<int>
  {
    var body := DigitPart(t);
    if IsDigitGroups(body) then
      var magnitude: int := HexValue(RemoveUnderscores(body));
      Success(if |t| > 0 && t[0] == '-' then -magnitude else magnitude)
    else
      Failure(InvalidLiteral)
  }

  // ---------------------------------------------------------------------------
  // Writing: f'0x{v:064x}'

  const FieldWidth: nat := 64

  /** Python's `format(v, 'x')` for v >= 0: the shortest lower-case spelling. */
  function Hex(v: nat): (s: string)
    ensures |s| > 0 && AllLowerHex(s)
  {
    Chars(ToDigits(v, 16))
  }

  /** The `0` flag with a width: zeros on the left up to `width` characters. */
  function PadLeft(s: string, width: nat): string
  {
    if |s| < width then ZeroChars(width - |s|) + s else s
  }

  /** `f'0x{v:064x}'`. The width counts the sign, so a negative value keeps 63 places. */
  function EncodeField(v: int): (r: string)
    ensures |r| >= 3 && r[..2] == "0x"
    ensures v >= 0 ==> AllLowerHex(r[2..])
    ensures v < 0 ==> r[2] == '-'
  {
    if v >= 0 then "0x" + PadLeft(Hex(v), FieldWidth)
    else "0x-" + PadLeft(Hex(-v), FieldWidth - 1)
  }

  /** `secrets.token_hex`: two lower-case digits per byte, high nibble first. */
  function TokenHex(bytes: seq<bv8>): (s: string)
    ensures |s| == 2 * |bytes| && AllLowerHex(s)
  {
    Chars(Nibbles(bytes))
  }

  function Nibbles(bytes: seq<bv8>): (ds: seq<nat>)
    ensures |ds| == 2 * |bytes| && IsDigits(ds, 16)
  {
    if |bytes| == 0 then []
    else
      var b := bytes[|bytes| - 1] as nat;
      Nibbles(bytes[..|bytes| - 1]) + [b / 16, b % 16]
  }

  /** The big-endian value of a byte string. */
  function BytesValue(bytes: seq<bv8>): nat
  {
    FromDigits(seq(|bytes|, i requires 0 <= i < |bytes| => bytes[i] as nat), 256)
  }

  // ---------------------------------------------------------------------------
  // Facts about reading

  lemma LemmaTrimNoSpace(s: string)
    requires |s| > 0 && !IsSpace(s[0]) && !IsSpace(s[|s| - 1])
    ensures Strip(s) == s
  {
  }

  lemma {:induction false} LemmaRemoveNoUnderscore(s: string)
    requires AllHex(s)
    ensures RemoveUnderscores(s) == s
    decreases |s|
  {
    if |s| > 0 {
      LemmaRemoveNoUnderscore(s[1..]);
      assert s == [s[0]] + s[1..];
    }
  }

  /** A bare digit string reads as its base-16 value, most significant digit first. */
  lemma LemmaPlainDigits(s: string)
    requires |s| > 0 && AllHex(s)
    ensures HexToInt(s) == Success(HexValue(s))
  {
    LemmaTrimNoSpace(s);
    assert Unsigned(s) == s;
    assert !HasPrefix(s);
    LemmaRemoveNoUnderscore(s);
  }

  /** A `0x` or `0X` prefix is accepted and does not change the value. */
  lemma LemmaPrefixIgnored(s: string)
    requires |s| > 0 && AllHex(s)
    ensures HexToInt("0x" + s) == HexToInt(s)
    ensures HexToInt("0X" + s) == HexToInt(s)
  {
    LemmaPlainDigits(s);
    LemmaPrefixedReads("0x" + s, s);
    LemmaPrefixedReads("0X" + s, s);
  }

  lemma LemmaPrefixedReads(p: string, s: string)
    requires |s| > 0 && AllHex(s)
    requires |p| == |s| + 2 && p[0] == '0' && (p[1] == 'x' || p[1] == 'X') && p[2..] == s
    ensures HexToInt(p) == Success(HexValue(s))
  {
    LemmaTrimNoSpace(p);
    assert Unsigned(p) == p;
    assert DigitPart(p) == s;
    LemmaRemoveNoUnderscore(s);
  }

  /** A sign in front of the digits negates, or keeps, the value. */
  lemma LemmaSign(s: string)
    requires |s| > 0 && AllHex(s)
    ensures HexToInt("-" + s) == Success(-(HexValue(s) as int))
    ensures HexToInt("+" + s) == Success(HexValue(s))
  {
    LemmaTrimNoSpace("-" + s);
    LemmaTrimNoSpace("+" + s);
    assert Unsigned("-" + s) == s && Unsigned("+" + s) == s;
    assert !HasPrefix(s);
    LemmaRemoveNoUnderscore(s);
  }

  /** Leading zero digits do not change the value: padded and unpadded spellings agree. */
  lemma LemmaLeadingZeroDigits(k: nat, s: string)
    requires |s| > 0 && AllHex(s)
    ensures HexToInt(ZeroChars(k) + s) == HexToInt(s)
  {
    LemmaValuesAppend(ZeroChars(k), s);
    LemmaPlainDigits(ZeroChars(k) + s);
    LemmaPlainDigits(s);
    LemmaValuesZeroChars(k);
    LemmaLeadingZeros(k, Values(s), 16);
  }

  /** Without white space, signs or underscores, a string is accepted exactly when it is
      a non-empty run of hexadecimal digits, optionally behind a `0x`/`0X` prefix. */
  lemma LemmaAcceptsExactly(s: string)
    requires forall i :: 0 <= i < |s| ==> !IsSpace(s[i]) && s[i] != '+' && s[i] != '-' && s[i] != '_'
    ensures HexToInt(s).Success? <==>
      || (|s| > 0 && AllHex(s))
      || (|s| > 2 && s[0] == '0' && (s[1] == 'x' || s[1] == 'X') && AllHex(s[2..]))
  {
    if |s| > 0 {
      LemmaTrimNoSpace(s);
    }
    assert Unsigned(s) == s;
    if HasPrefix(s) {
      assert DigitPart(s) == s[2..];
    }
  }

  /** A character that cannot occur in a base-16 literal makes reading fail. */
  predicate IsLiteralChar(c: char)
  {
    IsHexDigit(c) || IsSpace(c) || c == '+' || c == '-' || c == 'x' || c == 'X' || c == '_'
  }

  lemma LemmaForeignCharRejected(s: string, i: nat)
    requires i < |s| && !IsLiteralChar(s[i])
    ensures HexToInt(s) == Failure(InvalidLiteral)
  {
    var t := Strip(s);
    LemmaStripKeeps(s, i);
    var m :| 0 <= m < |t| && t[m] == s[i];
    var j := LemmaDigitPartSuffix(t);
    assert m >= j;
    assert DigitPart(t)[m - j] == s[i];
  }

  lemma {:induction false} LemmaTrimLeftKeeps(s: string, i: nat)
    requires i < |s| && !IsSpace(s[i])
    ensures s[i] in TrimLeft(s)
    decreases |s|
  {
    if IsSpace(s[0]) {
      assert s[1..][i - 1] == s[i];
      LemmaTrimLeftKeeps(s[1..], i - 1);
    } else {
      assert TrimLeft(s)[i] == s[i];
    }
  }

  lemma {:induction false} LemmaTrimRightKeeps(s: string, i: nat)
    requires i < |s| && !IsSpace(s[i])
    ensures s[i] in TrimRight(s)
    decreases |s|
  {
    if IsSpace(s[|s| - 1]) {
      assert s[..|s| - 1][i] == s[i];
      LemmaTrimRightKeeps(s[..|s| - 1], i);
    } else {
      assert TrimRight(s)[i] == s[i];
    }
  }

  lemma LemmaStripKeeps(s: string, i: nat)
    requires i < |s| && !IsSpace(s[i])
    ensures s[i] in Strip(s)
  {
    LemmaTrimLeftKeeps(s, i);
    var m :| 0 <= m < |TrimLeft(s)| && TrimLeft(s)[m] == s[i];
    LemmaTrimRightKeeps(TrimLeft(s), m);
  }

  /** The digit part is a suffix, and what precedes it is sign, prefix and underscore. */
  lemma LemmaDigitPartSuffix(t: string) returns (j: nat)
    ensures j <= |t| && DigitPart(t) == t[j..]
    ensures forall k :: 0 <= k < j ==> t[k] in "+-0xX_"
  {
    var s := if |t| > 0 && (t[0] == '+' || t[0] == '-') then 1 else 0;
    var u := Unsigned(t);
    assert u == t[s..];
    if HasPrefix(u) {
      j := if |u| > 2 && u[2] == '_' then s + 3 else s + 2;
      assert DigitPart(t) == t[s..][j - s..];
    } else {
      j := s;
    }
  }

  // ---------------------------------------------------------------------------
  // Case does not matter

  function LowerChar(c: char): char
  {
    if 'A' <= c <= 'Z' then (c as int + 32) as char else c
  }

  function AsciiLower(s: string): (r: string)
    ensures |r| == |s| && forall i :: 0 <= i < |s| ==> r[i] == LowerChar(s[i])
  {
    seq(|s|, i requires 0 <= i < |s| => LowerChar(s[i]))
  }

  lemma LemmaLowerDrop(s: string, k: nat)
    requires k <= |s|
    ensures AsciiLower(s)[k..] == AsciiLower(s[k..])
  {
  }

  lemma LemmaLowerTake(s: string, k: nat)
    requires k <= |s|
    ensures AsciiLower(s)[..k] == AsciiLower(s[..k])
  {
  }

  lemma {:induction false} LemmaTrimLeftLower(s: string)
    ensures TrimLeft(AsciiLower(s)) == AsciiLower(TrimLeft(s))
    decreases |s|
  {
    if |s| > 0 {
      var ls := AsciiLower(s);
      assert ls[0] == LowerChar(s[0]);
      assert IsSpace(ls[0]) == IsSpace(s[0]);
      if IsSpace(s[0]) {
        LemmaLowerDrop(s, 1);
        LemmaTrimLeftLower(s[1..]);
      }
    }
  }

  lemma {:induction false} LemmaTrimRightLower(s: string)
    ensures TrimRight(AsciiLower(s)) == AsciiLower(TrimRight(s))
    decreases |s|
  {
    if |s| > 0 {
      var ls := AsciiLower(s);
      assert ls[|s| - 1] == LowerChar(s[|s| - 1]);
      assert IsSpace(ls[|s| - 1]) == IsSpace(s[|s| - 1]);
      if IsSpace(s[|s| - 1]) {
        LemmaLowerTake(s, |s| - 1);
        LemmaTrimRightLower(s[..|s| - 1]);
      }
    }
  }

  lemma LemmaDigitPartLower(t: string)
    ensures DigitPart(AsciiLower(t)) == AsciiLower(DigitPart(t))
  {
    var lt := AsciiLower(t);
    var u := Unsigned(t);
    if |t| > 0 && (t[0] == '+' || t[0] == '-') {
      LemmaLowerDrop(t, 1);
    }
    assert Unsigned(lt) == AsciiLower(u);
    if HasPrefix(u) {
      LemmaLowerDrop(u, 2);
      if |u| > 2 {
        LemmaLowerDrop(u, 3);
      }
    }
  }

  lemma {:induction false} LemmaRemoveUnderscoresLower(b: string)
    ensures RemoveUnderscores(AsciiLower(b)) == AsciiLower(RemoveUnderscores(b))
    decreases |b|
  {
    if |b| > 0 {
      var lb := AsciiLower(b);
      LemmaLowerDrop(b, 1);
      LemmaRemoveUnderscoresLower(b[1..]);
      var head := if b[0] == '_' then [] else [b[0]];
      var tail := RemoveUnderscores(b[1..]);
      assert lb[0] == LowerChar(b[0]);
      assert RemoveUnderscores(lb) == AsciiLower(head) + RemoveUnderscores(lb[1..]);
      assert RemoveUnderscores(lb[1..]) == AsciiLower(tail);
      LemmaLowerAppend(head, tail);
    }
  }

  lemma LemmaLowerAppend(a: string, b: string)
    ensures AsciiLower(a + b) == AsciiLower(a) + AsciiLower(b)
  {
  }

  lemma LemmaGroupsLower(b: string)
    ensures IsDigitGroups(AsciiLower(b)) == IsDigitGroups(b)
  {
    var lb := AsciiLower(b);
    assert forall i :: 0 <= i < |b| ==> (IsHexDigit(lb[i]) <==> IsHexDigit(b[i])) && (lb[i] == '_' <==> b[i] == '_');
  }

  lemma LemmaValuesLower(r: string)
    requires AllHex(r)
    ensures AllHex(AsciiLower(r)) && Values(AsciiLower(r)) == Values(r)
  {
  }

  /** Upper- and lower-case spellings read the same, for every input. */
  lemma LemmaCaseInsensitive(s: string)
    ensures HexToInt(AsciiLower(s)) == HexToInt(s)
  {
    var t := Strip(s);
    assert Strip(AsciiLower(s)) == AsciiLower(t) by {
      LemmaTrimLeftLower(s);
      LemmaTrimRightLower(TrimLeft(s));
    }
    LemmaLiteralLower(t);
  }

  lemma LemmaLiteralLower(t: string)
    ensures ReadLiteral(AsciiLower(t)) == ReadLiteral(t)
  {
    var lt := AsciiLower(t);
    var body := DigitPart(t);
    var lbody := DigitPart(lt);
    LemmaDigitPartLower(t);
    assert lbody == AsciiLower(body);
    LemmaGroupsLower(body);
    assert (|lt| > 0 && lt[0] == '-') == (|t| > 0 && t[0] == '-');
    if IsDigitGroups(body) {
      var digits := RemoveUnderscores(body);
      LemmaRemoveUnderscoresLower(body);
      LemmaValuesLower(digits);
      assert HexValue(RemoveUnderscores(lbody)) == HexValue(digits);
      LemmaSameMagnitude(t, lt);
    } else {
      assert !IsDigitGroups(lbody);
    }
  }

  /** Two literals with the same sign whose digits have the same value read the same. */
  lemma LemmaSameMagnitude(t: string, t': string)
    requires IsDigitGroups(DigitPart(t)) && IsDigitGroups(DigitPart(t'))
    requires (|t| > 0 && t[0] == '-') == (|t'| > 0 && t'[0] == '-')
    requires HexValue(RemoveUnderscores(DigitPart(t))) == HexValue(RemoveUnderscores(DigitPart(t')))
    ensures ReadLiteral(t) == ReadLiteral(t')
  {
  }

  // ---------------------------------------------------------------------------
  // Facts about writing

  lemma LemmaPadValue(v: nat, width: nat)
    ensures AllLowerHex(PadLeft(Hex(v), width))
    ensures HexValue(PadLeft(Hex(v), width)) == v
  {
    var h := Hex(v);
    var ds := ToDigits(v, 16);
    assert Values(h) == ds;
    if |h| < width {
      var k := width - |h|;
      var p := ZeroChars(k) + h;
      assert PadLeft(h, width) == p;
      LemmaValuesAppend(ZeroChars(k), h);
      LemmaValuesZeroChars(k);
      assert Values(p) == Zeros(k) + ds;
      LemmaLeadingZeros(k, ds, 16);
    }
  }

  /** Reading back an encoded field gives the value exactly when it is not negative:
      a negative value is written as `0x-…`, which `int(s, 16)` refuses. */
  lemma LemmaEncodeDecode(v: int)
    ensures HexToInt(EncodeField(v)) == if v >= 0 then Success(v) else Failure(InvalidLiteral)
  {
    var e := EncodeField(v);
    if v >= 0 {
      var p := PadLeft(Hex(v), FieldWidth);
      LemmaPadValue(v, FieldWidth);
      LemmaPrefixedReads(e, p);
    } else {
      var p := PadLeft(Hex(-v), FieldWidth - 1);
      assert e == "0x-" + p;
      LemmaInnerSignRejected(e);
    }
  }

  /** A sign after the `0x` prefix is not part of any literal. */
  lemma LemmaInnerSignRejected(e: string)
    requires |e| >= 4 && e[..3] == "0x-" && IsHexDigit(e[|e| - 1])
    ensures HexToInt(e) == Failure(InvalidLiteral)
  {
    LemmaTrimNoSpace(e);
    assert Unsigned(e) == e;
    assert HasPrefix(e) && e[2] == '-';
    assert DigitPart(e) == e[2..];
    assert !IsDigitGroups(e[2..]);
  }

  lemma LemmaPowSixteen()
    ensures Pow(16, FieldWidth) == Pow(2, 256)
  {
    LemmaPowPow(2, 4, FieldWidth);
    assert Pow(2, 4) == 16;
  }

  /** Non-negative fields are `0x` and at least 64 digits; exactly 64 when v < 2^256. */
  lemma LemmaEncodeWidth(v: int)
    requires v >= 0
    ensures |EncodeField(v)| >= FieldWidth + 2
    ensures |EncodeField(v)| == FieldWidth + 2 <==> v < Pow(2, 256)
  {
    LemmaToDigitsLength(v, 16, FieldWidth);
    LemmaPowSixteen();
  }

  /** A string of exactly 64 lower-case digits after `0x` is what the encoder writes for
      its value: such a field is stable under reading and writing back. */
  predicate IsCanonicalField(s: string)
  {
    |s| == FieldWidth + 2 && s[..2] == "0x" && AllLowerHex(s[2..])
  }

  lemma LemmaCanonicalField(s: string)
    requires IsCanonicalField(s)
    ensures HexToInt(s).Success? && HexToInt(s).value >= 0
    ensures EncodeField(HexToInt(s).value) == s
  {
    var body := s[2..];
    assert s == "0x" + body;
    LemmaPrefixedReads(s, body);
    LemmaEncodeCanonicalBody(body);
  }

  lemma LemmaEncodeCanonicalBody(body: string)
    requires |body| == FieldWidth && AllLowerHex(body)
    ensures EncodeField(HexValue(body)) == "0x" + body
  {
    var v := HexValue(body);
    var k := LemmaSplitLeadingZeros(body);
    LemmaHexOfPadded(body, k);
    assert PadLeft(Hex(v), FieldWidth) == body by {
      assert body == ZeroChars(k) + body[k..];
    }
  }

  /** The shortest spelling of a padded numeral's value is the numeral without its zeros. */
  lemma LemmaHexOfPadded(body: string, k: nat)
    requires k < |body| && AllLowerHex(body) && body[..k] == ZeroChars(k)
    requires body[k] != '0' || k == |body| - 1
    ensures Hex(HexValue(body)) == body[k..]
  {
    var rest := body[k..];
    var digits := Values(rest);
    assert HexValue(body) == FromDigits(digits, 16) by {
      LemmaZeroCharsValue(body, k);
    }
    assert IsMinimal(digits) by {
      assert rest[0] == body[k];
    }
    LemmaToDigitsFromDigits(digits, 16);
    LemmaCharsOfValues(rest);
  }

  lemma LemmaZeroCharsValue(body: string, k: nat)
    requires k <= |body| && AllHex(body) && body[..k] == ZeroChars(k)
    ensures HexValue(body) == HexValue(body[k..])
  {
    var z := ZeroChars(k);
    var rest := body[k..];
    assert body == z + rest;
    LemmaValuesAppend(z, rest);
    LemmaValuesZeroChars(k);
    LemmaLeadingZeros(k, Values(rest), 16);
  }

  /** Every digit string is some zeros followed by a minimal spelling. */
  lemma {:induction false} LemmaSplitLeadingZeros(s: string) returns (k: nat)
    requires |s| > 0 && AllLowerHex(s)
    ensures k < |s| && s[..k] == ZeroChars(k)
    ensures s[k] != '0' || k == |s| - 1
    decreases |s|
  {
    if s[0] != '0' || |s| == 1 {
      k := 0;
    } else {
      var k' := LemmaSplitLeadingZeros(s[1..]);
      k := k' + 1;
      assert s[..k] == [s[0]] + s[1..][..k'];
    }
  }

  /** The hexadecimal spelling of bytes reads back as their big-endian value. */
  lemma {:induction false} LemmaNibblesValue(bytes: seq<bv8>)
    ensures FromDigits(Nibbles(bytes), 16) == BytesValue(bytes)
    decreases |bytes|
  {
    if |bytes| > 0 {
      var init := bytes[..|bytes| - 1];
      var b := bytes[|bytes| - 1] as nat;
      LemmaNibblesValue(init);
      var ds := Nibbles(init);
      assert Nibbles(bytes) == (ds + [b / 16]) + [b % 16];
      LemmaFromDigitsSnoc(ds + [b / 16], b % 16, 16);
      LemmaFromDigitsSnoc(ds, b / 16, 16);
      var whole := seq(|bytes|, i requires 0 <= i < |bytes| => bytes[i] as nat);
      assert whole[..|whole| - 1] == seq(|init|, i requires 0 <= i < |init| => init[i] as nat);
      assert BytesValue(bytes) == BytesValue(init) * 256 + b;
    }
  }

  lemma LemmaTokenHexValue(bytes: seq<bv8>)
    requires |bytes| > 0
    ensures HexToInt(TokenHex(bytes)) == Success(BytesValue(bytes))
    ensures BytesValue(bytes) < Pow(2, 8 * |bytes|)
  {
    var s := TokenHex(bytes);
    LemmaPlainDigits(s);
    assert Values(s) == Nibbles(bytes);
    LemmaNibblesValue(bytes);
    LemmaBytesValueBound(bytes);
  }

  lemma LemmaBytesValueBound(bytes: seq<bv8>)
    ensures BytesValue(bytes) < Pow(2, 8 * |bytes|)
  {
    var whole := seq(|bytes|, i requires 0 <= i < |bytes| => bytes[i] as nat);
    assert IsDigits(whole, 256);
    LemmaFromDigitsBound(whole, 256);
    LemmaPowPow(2, 8, |bytes|);
    assert Pow(2, 8) == 256;
  }
}
