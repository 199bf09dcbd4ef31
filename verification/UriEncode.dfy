/** Percent encoding of strings into a buffer of limited size. */
module UriEncode {
  import opened Sequences

  type Byte = x: int | 0 <= x < 256

  // ---------------------------------------------------------------- classes of characters

  /** Bit 5 tells lower-case letters from upper-case ones. */
  predicate IsAlpha(ch: Byte) {
    var low := (ch as bv8) | 32;
    97 <= low <= 122
  }

  lemma {:induction false} LettersByBit(b: bv8)
    ensures 97 <= b | 32 <= 122 <==> 65 <= b <= 90 || 97 <= b <= 122
  {
  }

  lemma {:induction false} BytesInOrder(ch: Byte)
    ensures 65 <= ch as bv8 <= 90 <==> 65 <= ch <= 90
    ensures 97 <= ch as bv8 <= 122 <==> 97 <= ch <= 122
  {
  }

  /** The letters and digits. */
  predicate IsAlnum(ch: Byte)
    ensures IsAlnum(ch) <==> 65 <= ch <= 90 || 97 <= ch <= 122 || 48 <= ch <= 57
  {
    LettersByBit(ch as bv8);
    BytesInOrder(ch);
    IsAlpha(ch) || 48 <= ch <= 57
  }

  /** The characters ~ - . and _, with letters and digits the unreserved ones of section 2.3 of RFC 3986. */
  predicate IsPunctRfc3986(ch: Byte) {
    ch == 126 || ch == 45 || ch == 46 || ch == 95
  }

  /** The characters * - . and _. */
  predicate IsPunctHtml5(ch: Byte) {
    ch == 42 || ch == 45 || ch == 46 || ch == 95
  }

  /** In form data a blank becomes a plus sign. */
  datatype Table = Rfc3986 | Html5 {
    function Mapped(ch: Byte): Byte {
      if IsAlnum(ch) || (if Rfc3986? then IsPunctRfc3986(ch) else IsPunctHtml5(ch)) then ch
      else if Html5? && ch == 32 then 43
      else 0
    }
  }

  const PERCENT: Byte := 37

  function Hex(d: int): Byte
    requires 0 <= d < 16
  {
    if d < 10 then 48 + d else 87 + d
  }

  /** The end of the list of characters to preserve counts as one of them. */
  predicate Preserved(preserve: seq<Byte>, ch: Byte) {
    ch == 0 || ch in preserve
  }

  predicate IsEscaped(tab: Table, preserve: seq<Byte>, ch: Byte) {
    tab.Mapped(ch) == 0 && !Preserved(preserve, ch)
  }

  function EncodeChar(tab: Table, preserve: seq<Byte>, ch: Byte): (r: seq<Byte>)
    ensures |r| == if IsEscaped(tab, preserve, ch) then 3 else 1
  {
    if tab.Mapped(ch) != 0 then [tab.Mapped(ch)]
    else if Preserved(preserve, ch) then [ch]
    else [PERCENT, Hex(ch / 16), Hex(ch % 16)]
  }

  function Encoder(tab: Table, preserve: seq<Byte>): Byte -> seq<Byte> {
    (ch: Byte) => EncodeChar(tab, preserve, ch)
  }

  function Encoded(tab: Table, preserve: seq<Byte>, input: seq<Byte>): seq<Byte> {
    FlatMap(Encoder(tab, preserve), input)
  }

  /** There are at most three bytes for each, and at least one. */
  lemma {:induction false} EncodedLength(tab: Table, preserve: seq<Byte>, input: seq<Byte>)
    ensures |input| <= |Encoded(tab, preserve, input)| <= 3 * |input|
  {
    if input != [] { EncodedLength(tab, preserve, input[1..]); }
  }

  lemma {:induction false} EncodedStep(tab: Table, preserve: seq<Byte>, input: seq<Byte>, i: nat)
    requires i < |input|
    ensures Encoded(tab, preserve, input[..i + 1]) == Encoded(tab, preserve, input[..i]) + EncodeChar(tab, preserve, input[i])
    ensures |Encoded(tab, preserve, input[..i + 1])| <= |Encoded(tab, preserve, input)|
    ensures i + 1 < |input| ==> |Encoded(tab, preserve, input[..i + 1])| < |Encoded(tab, preserve, input)|
  {
    assert input[..i + 1] == input[..i] + [input[i]];
    var f := Encoder(tab, preserve);
    FlatMapConcat(f, input[..i], [input[i]]);
    FlatMapSingle(f, input[i]);
    assert input == input[..i + 1] + input[i + 1..];
    FlatMapConcat(f, input[..i + 1], input[i + 1..]);
    EncodedLength(tab, preserve, input[i + 1..]);
  }

  // ---------------------------------------------------------------- into a buffer

  method PrintCharEncoded(buf: array<Byte>, pos: nat, ch: Byte, mapped: Byte, preserve: seq<Byte>, ghost tab: Table) returns (ok: bool, bufpos: nat)
    requires mapped == tab.Mapped(ch)
    modifies buf
    ensures ok <==> pos + (if IsEscaped(tab, preserve, ch) then 4 else 1) < buf.Length
    ensures ok ==> bufpos == pos + |EncodeChar(tab, preserve, ch)| < buf.Length
    ensures ok ==> buf[..bufpos] == old(buf[..pos]) + EncodeChar(tab, preserve, ch)
    ensures !ok ==> bufpos == pos && buf[..] == old(buf[..])
  {
    bufpos := pos;
    if mapped != 0 {
      if pos + 1 >= buf.Length { return false, pos; }
      buf[pos] := mapped;
      bufpos := pos + 1;
    } else if Preserved(preserve, ch) {
      if pos + 1 >= buf.Length { return false, pos; }
      buf[pos] := ch;
      bufpos := pos + 1;
    } else {
      if pos + 4 >= buf.Length { return false, pos; }
      buf[pos], buf[pos + 1], buf[pos + 2] := PERCENT, Hex(ch / 16), Hex(ch % 16);
      bufpos := pos + 3;
    }
    return true, bufpos;
  }

  /** What is needed: the encoded string with its terminating zero, and one byte more behind an escaped last character. */
  function Needed(tab: Table, preserve: seq<Byte>, input: seq<Byte>): nat {
    |Encoded(tab, preserve, input)| + 1
    + if input != [] && IsEscaped(tab, preserve, input[|input| - 1]) then 1 else 0
  }

  /** What every character is mapped to, 0 for those to be escaped. */
  class CharTable {
    const ar: array<Byte>
    ghost const tab: Table

    ghost predicate Valid()
      reads ar
    {
      ar.Length == 256 && forall i :: 0 <= i < 256 ==> ar[i] == tab.Mapped(i)
    }

    constructor (tab: Table)
      ensures Valid() && fresh(ar) && this.tab == tab
    {
      var a := new Byte[256](_ => 0);
      for ii := 0 to 256
        invariant forall i :: 0 <= i < ii ==> a[i] == tab.Mapped(i)
      {
        if IsAlnum(ii) || (if tab.Rfc3986? then IsPunctRfc3986(ii) else IsPunctHtml5(ii)) {
          a[ii] := ii;
        } else if tab.Html5? && ii == 32 {
          a[ii] := 43;
        } else {
          a[ii] := 0;
        }
      }
      this.ar, this.tab := a, tab;
    }

    /** Encodes into a buffer; it succeeds exactly if the buffer is large enough. The terminating zero of an empty input
        is written without a look at the size of the buffer: stray is whether that place is outside. */
    method Encode(buf: array<Byte>, input: seq<Byte>, preserve: seq<Byte>) returns (ok: bool, bufpos: nat, stray: bool)
      requires Valid() && buf != ar
      modifies buf
      ensures stray <==> buf.Length == 0 && input == []
      ensures ok <==> stray || Needed(tab, preserve, input) <= buf.Length
      ensures ok && !stray ==> bufpos == |Encoded(tab, preserve, input)| < buf.Length
      ensures ok && !stray ==> buf[..bufpos] == Encoded(tab, preserve, input) && buf[bufpos] == 0
    {
      var si := 0;
      bufpos := 0;
      while si < |input|
        invariant 0 <= si <= |input| && bufpos == |Encoded(tab, preserve, input[..si])| <= buf.Length
        invariant si > 0 ==> bufpos < buf.Length
        invariant buf[..bufpos] == Encoded(tab, preserve, input[..si])
        invariant si > 0 && IsEscaped(tab, preserve, input[si - 1]) ==> bufpos + 1 < buf.Length
      {
        EncodedStep(tab, preserve, input, si);
        assert si + 1 == |input| ==> input[..si + 1] == input;
        ok, bufpos := PrintCharEncoded(buf, bufpos, input[si], ar[input[si]], preserve, tab);
        if !ok { return false, bufpos, false; }
        si := si + 1;
      }
      assert input[..si] == input;
      if bufpos < buf.Length {
        buf[bufpos] := 0;
        return true, bufpos, false;
      }
      return true, bufpos, true;
    }
  }

  // ---------------------------------------------------------------- decoding

  function HexValue(b: Byte): (r: int)
    ensures -1 <= r < 16
  {
    if 48 <= b <= 57 then b - 48
    else if 97 <= b <= 102 then b - 87
    else if 65 <= b <= 70 then b - 55
    else -1
  }

  /** Section 2.1 of RFC 3986; for form data + stands for a blank. */
  function Decoded(tab: Table, s: seq<Byte>): seq<Byte> {
    if s == [] then []
    else if |s| > 2 && s[0] == PERCENT && HexValue(s[1]) >= 0 && HexValue(s[2]) >= 0 then
      [HexValue(s[1]) * 16 + HexValue(s[2])] + Decoded(tab, s[3..])
    else [if tab.Html5? && s[0] == 43 then 32 else s[0]] + Decoded(tab, s[1..])
  }

  predicate Decodable(tab: Table, preserve: seq<Byte>) {
    PERCENT !in preserve && (tab.Html5? ==> 43 !in preserve)
  }

  lemma {:induction false} DecodeEncoded(tab: Table, preserve: seq<Byte>, input: seq<Byte>)
    requires Decodable(tab, preserve)
    ensures Decoded(tab, Encoded(tab, preserve, input)) == input
  {
    if input != [] {
      var ch, rest := input[0], Encoded(tab, preserve, input[1..]);
      var first := EncodeChar(tab, preserve, ch);
      var s := first + rest;
      DecodeEncoded(tab, preserve, input[1..]);
      if IsEscaped(tab, preserve, ch) {
        assert HexValue(s[1]) == ch / 16 && HexValue(s[2]) == ch % 16;
        assert s[3..] == rest;
      } else {
        assert s[0] != PERCENT && s[1..] == rest;
      }
    }
  }

  /** Decoding undoes encoding of every string exactly if neither the percent sign is preserved, nor, in form data,
      the plus sign. */
  lemma {:induction false} EncodingIsReversible(tab: Table, preserve: seq<Byte>)
    ensures (forall input :: Decoded(tab, Encoded(tab, preserve, input)) == input) <==> Decodable(tab, preserve)
  {
    if Decodable(tab, preserve) {
      forall input ensures Decoded(tab, Encoded(tab, preserve, input)) == input { DecodeEncoded(tab, preserve, input); }
    } else if PERCENT in preserve {
      var input: seq<Byte> := [PERCENT, 52, 49];
      assert input[1..] == [52, 49] && input[1..][1..] == [49] && input[1..][1..][1..] == [];
      assert Encoded(tab, preserve, [49]) == [49] + Encoded(tab, preserve, []) && Encoded(tab, preserve, [52, 49]) == [52] + Encoded(tab, preserve, [49]);
      assert Encoded(tab, preserve, input) == input;
      assert |Decoded(tab, input)| == 1;
    } else {
      var input: seq<Byte> := [43];
      assert Encoded(tab, preserve, input) == [43];
      assert Decoded(tab, [43])[0] == 32;
    }
  }

  // ---------------------------------------------------------------- what the output consists of

  /** Letters, digits and four more: ~ - . _ in a URI and * - . _ in form data. */
  predicate IsUnreserved(tab: Table, b: Byte) {
    || 65 <= b <= 90 || 97 <= b <= 122 || 48 <= b <= 57
    || b == 45 || b == 46 || b == 95 || b == if tab.Rfc3986? then 126 else 42
  }

  predicate IsHexDigit(b: Byte) {
    48 <= b <= 57 || 97 <= b <= 102
  }

  /** It begins with a percent sign and two digits in base 16. */
  predicate IsEscape(s: seq<Byte>) {
    |s| > 2 && s[0] == 37 && IsHexDigit(s[1]) && IsHexDigit(s[2])
  }

  predicate IsSafeAt(tab: Table, preserve: seq<Byte>, s: seq<Byte>) {
    s != [] && (IsUnreserved(tab, s[0]) || (tab.Html5? && s[0] == 43) || s[0] == 0 || s[0] in preserve || IsEscape(s))
  }

  lemma {:induction false} CharIsSafe(tab: Table, preserve: seq<Byte>, ch: Byte, rest: seq<Byte>)
    ensures var e := EncodeChar(tab, preserve, ch); forall i :: 0 <= i < |e| ==> IsSafeAt(tab, preserve, (e + rest)[i..])
    ensures IsUnreserved(tab, ch) ==> EncodeChar(tab, preserve, ch) == [ch]
  {
    var e := EncodeChar(tab, preserve, ch);
    var s := e + rest;
    assert s[0..] == s && s[0] == e[0];
    if |e| == 3 {
      assert s[1] == e[1] && s[2] == e[2] && s[1..][0] == s[1] && s[2..][0] == s[2];
      assert IsHexDigit(s[1]) && IsHexDigit(s[2]);
    }
  }

  /** Every character of the output is unreserved, a plus sign in form data, preserved, or begins an escape, if it is
      not a digit of one. */
  lemma {:induction false} OutputIsSafe(tab: Table, preserve: seq<Byte>, input: seq<Byte>)
    ensures forall i :: 0 <= i < |Encoded(tab, preserve, input)| ==> IsSafeAt(tab, preserve, Encoded(tab, preserve, input)[i..])
  {
    if input != [] {
      hide EncodeChar, IsSafeAt;
      var first, rest := EncodeChar(tab, preserve, input[0]), Encoded(tab, preserve, input[1..]);
      OutputIsSafe(tab, preserve, input[1..]);
      CharIsSafe(tab, preserve, input[0], rest);
      assert Encoded(tab, preserve, input) == first + rest;
      assert forall i :: |first| <= i < |first + rest| ==> (first + rest)[i..] == rest[i - |first|..];
    }
  }

  /** Unreserved characters are copied. */
  lemma {:induction false} UnreservedIsCopied(tab: Table, preserve: seq<Byte>, input: seq<Byte>)
    requires forall i :: 0 <= i < |input| ==> IsUnreserved(tab, input[i])
    ensures Encoded(tab, preserve, input) == input
  {
    if input != [] {
      CharIsSafe(tab, preserve, input[0], []);
      UnreservedIsCopied(tab, preserve, input[1..]);
      assert input == [input[0]] + input[1..];
    }
  }
}
