/** Encoding of strings in markup and in program text. */
module MarkupEncoding {
  import opened Sequences

  /** What a character is replaced by; nothing for one that is copied. */
  datatype Code = Xml | AnsiC {
    function Entity(ch: char): string {
      if Xml? then
        if ch == '&' then "&amp;"
        else if ch == '<' then "&lt;"
        else if ch == '>' then "&gt;"
        else if ch == '"' then "&quot;"
        else if ch == '\'' then "&apos;"
        else ""
      else
        if ch == '\n' then "\\n"
        else if ch == '\r' then "\\r"
        else if ch == 8 as char then "\\b"
        else if ch == 12 as char then "\\f"
        else if ch == '\t' then "\\t"
        else if ch == '"' then "\\\""
        else if ch == '\\' then "\\\\"
        else ""
    }

    /** The character a replacement begins with. */
    function Mark(): char {
      if Xml? then '&' else '\\'
    }
  }

  function EncodedChar(code: Code, ch: char): string {
    if code.Entity(ch) != "" then code.Entity(ch) else [ch]
  }

  function Encoder(code: Code): char -> string {
    (ch: char) => EncodedChar(code, ch)
  }

  function Encoded(code: Code, s: string): string {
    FlatMap(Encoder(code), s)
  }

  lemma {:induction false} EncodedPlain(code: Code, s: string)
    requires forall i :: 0 <= i < |s| ==> code.Entity(s[i]) == ""
    ensures Encoded(code, s) == s
  {
    if s != "" { EncodedPlain(code, s[1..]); }
  }

  lemma {:induction false} NothingEncoded(code: Code)
    ensures Encoded(code, "") == ""
  {
  }

  lemma {:induction false} PlainStep(code: Code, s: string, i: nat, j: nat)
    requires i <= j <= |s| && forall k :: i <= k < j ==> code.Entity(s[k]) == ""
    ensures Encoded(code, s[..j]) == Encoded(code, s[..i]) + s[i..j]
  {
    assert s[..j] == s[..i] + s[i..j];
    FlatMapConcat(Encoder(code), s[..i], s[i..j]);
    EncodedPlain(code, s[i..j]);
  }

  lemma {:induction false} EntityStep(code: Code, s: string, i: nat)
    requires i < |s| && code.Entity(s[i]) != ""
    ensures Encoded(code, s[..i + 1]) == Encoded(code, s[..i]) + code.Entity(s[i])
  {
    assert s[..i + 1] == s[..i] + [s[i]];
    FlatMapConcat(Encoder(code), s[..i], [s[i]]);
    FlatMapSingle(Encoder(code), s[i]);
  }

  class OutputContext {
    var out: string

    /** The next character to be replaced. */
    method FindEntity(code: Code, str: string, start: nat) returns (si: nat, entity: string)
      requires start < |str|
      ensures start <= si <= |str| && (entity == "" <==> si == |str|)
      ensures entity != "" ==> entity == code.Entity(str[si])
      ensures forall i :: start <= i < si ==> code.Entity(str[i]) == ""
    {
      si, entity := start, "";
      while si != |str|
        invariant start <= si <= |str| && entity == "" && forall i :: start <= i < si ==> code.Entity(str[i]) == ""
        decreases |str| - si
      {
        entity := code.Entity(str[si]);
        if entity != "" { return; }
        si := si + 1;
      }
    }

    /** Copies the characters up to the next one to be replaced, and then its replacement, until the end. */
    method AppendEncoded(code: Code, str: string)
      modifies this
      ensures out == old(out) + Encoded(code, str)
    {
      hide Encoded;
      var si := 0;
      assert str[..0] == "";
      NothingEncoded(code);
      while si != |str|
        invariant 0 <= si <= |str| && out == old(out) + Encoded(code, str[..si])
        decreases |str| - si
      {
        var start, entity := si, "";
        si, entity := FindEntity(code, str, start);
        PlainStep(code, str, start, si);
        out := out + str[start..si];
        ghost var plain := Encoded(code, str[..si]);
        assert out == old(out) + plain;
        if entity != "" {
          EntityStep(code, str, si);
          out := out + entity;
          assert out == old(out) + (plain + entity);
          si := si + 1;
        }
      }
      assert str[..si] == str;
    }
  }

  // ---------------------------------------------------------------- decoding

  /** The replacement at the beginning of a string and what it stands for. */
  function EntityAt(code: Code, s: string): (r: (string, char)) {
    if code.Xml? then
      if "&amp;" <= s then ("&amp;", '&')
      else if "&lt;" <= s then ("&lt;", '<')
      else if "&gt;" <= s then ("&gt;", '>')
      else if "&quot;" <= s then ("&quot;", '"')
      else if "&apos;" <= s then ("&apos;", '\'')
      else ("", ' ')
    else
      if "\\n" <= s then ("\\n", '\n')
      else if "\\r" <= s then ("\\r", '\r')
      else if "\\b" <= s then ("\\b", 8 as char)
      else if "\\f" <= s then ("\\f", 12 as char)
      else if "\\t" <= s then ("\\t", '\t')
      else if "\\\"" <= s then ("\\\"", '"')
      else if "\\\\" <= s then ("\\\\", '\\')
      else ("", ' ')
  }

  /** Replaces the predefined entities of section 4.6 of XML 1.0, or the escapes of the C language. */
  function Decoded(code: Code, s: string): string {
    if s == "" then ""
    else
      var (entity, ch) := EntityAt(code, s);
      if entity != "" && |entity| <= |s| then [ch] + Decoded(code, s[|entity|..])
      else [s[0]] + Decoded(code, s[1..])
  }

  /** Different characters have different replacements, none of which begins another. */
  lemma {:induction false} EntityIsFound(code: Code, ch: char, rest: string)
    requires code.Entity(ch) != ""
    ensures EntityAt(code, code.Entity(ch) + rest) == (code.Entity(ch), ch)
  {
    var s, e := code.Entity(ch) + rest, code.Entity(ch);
    assert s[..|e|] == e;
    if code.Xml? {
      assert s[0] == e[0] && s[1] == e[1] && s[2] == e[2];
    } else {
      assert s[0] == e[0] && s[1] == e[1];
    }
  }

  lemma {:induction false} DecodeFirst(code: Code, ch: char, rest: string)
    ensures Decoded(code, EncodedChar(code, ch) + rest) == [ch] + Decoded(code, rest)
  {
    var e := code.Entity(ch);
    if e != "" {
      EntityIsFound(code, ch, rest);
      DecodeEntity(code, e, ch, rest);
    } else {
      var t := [ch] + rest;
      assert t[0] == ch && t[1..] == rest;
      assert EntityAt(code, t).0 == "";
    }
  }

  lemma {:induction false} DecodeEntity(code: Code, e: string, ch: char, rest: string)
    requires e != "" && EntityAt(code, e + rest) == (e, ch)
    ensures Decoded(code, e + rest) == [ch] + Decoded(code, rest)
  {
    assert (e + rest)[|e|..] == rest;
  }

  /** Decoding undoes encoding. */
  lemma {:induction false} DecodeEncoded(code: Code, s: string)
    ensures Decoded(code, Encoded(code, s)) == s
  {
    if s != "" {
      DecodeFirst(code, s[0], Encoded(code, s[1..]));
      DecodeEncoded(code, s[1..]);
    }
  }

  // ---------------------------------------------------------------- what the output consists of

  /** It begins with one of the predefined entities. */
  predicate IsReference(s: string) {
    "&amp;" <= s || "&lt;" <= s || "&gt;" <= s || "&quot;" <= s || "&apos;" <= s
  }

  /** Text with no character that is markup; an ampersand begins an entity. */
  predicate IsMarkupText(s: string) {
    forall i :: 0 <= i < |s| ==>
      && s[i] != '<' && s[i] != '>' && s[i] != '"' && s[i] != '\''
      && (s[i] == '&' ==> IsReference(s[i..]))
  }

  predicate IsPlainInProgram(c: char) {
    c != '\n' && c != '\r' && c != '\t' && c != 8 as char && c != 12 as char && c != '"' && c != '\\'
  }

  predicate IsEscaped(c: char) {
    c == 'n' || c == 'r' || c == 'b' || c == 'f' || c == 't' || c == '"' || c == '\\'
  }

  /** Plain characters and escapes of two characters, as between the quotes of a string. */
  predicate IsProgramText(s: string) {
    if s == "" then true
    else if s[0] == '\\' then |s| > 1 && IsEscaped(s[1]) && IsProgramText(s[2..])
    else IsPlainInProgram(s[0]) && IsProgramText(s[1..])
  }

  lemma {:induction false} CharIsMarkupText(c: char)
    ensures IsMarkupText(EncodedChar(Xml, c))
    ensures IsMarkupText([c]) ==> EncodedChar(Xml, c) == [c]
  {
    var e := EncodedChar(Xml, c);
    if Xml.Entity(c) != "" {
      assert e[0..] == e && IsReference(e);
    }
    assert [c][0] == c && [c][0..] == [c];
  }

  lemma {:induction false} MarkupTextConcat(a: string, b: string)
    requires IsMarkupText(a) && IsMarkupText(b)
    ensures IsMarkupText(a + b)
  {
    var s := a + b;
    forall i | 0 <= i < |s|
      ensures s[i] != '<' && s[i] != '>' && s[i] != '"' && s[i] != '\'' && (s[i] == '&' ==> IsReference(s[i..]))
    {
      if i < |a| {
        assert s[i..] == a[i..] + b;
        ReferencePrefix(a[i..], b);
      } else {
        assert s[i..] == b[i - |a|..];
      }
    }
  }

  lemma {:induction false} ReferencePrefix(a: string, b: string)
    ensures IsReference(a) ==> IsReference(a + b)
  {
    PrefixOfConcat("&amp;", a, b);
    PrefixOfConcat("&lt;", a, b);
    PrefixOfConcat("&gt;", a, b);
    PrefixOfConcat("&quot;", a, b);
    PrefixOfConcat("&apos;", a, b);
  }

  lemma {:induction false} PrefixOfConcat(e: string, a: string, b: string)
    ensures e <= a ==> e <= a + b
  {
  }

  lemma {:induction false} CharInProgram(c: char)
    ensures var e := EncodedChar(AnsiC, c); if IsPlainInProgram(c) then e == [c] else |e| == 2 && e[0] == '\\' && IsEscaped(e[1])
  {
  }

  lemma {:induction false} CharIsProgramText(c: char, rest: string)
    requires IsProgramText(rest)
    ensures IsProgramText(EncodedChar(AnsiC, c) + rest)
    ensures IsPlainInProgram(c) ==> EncodedChar(AnsiC, c) == [c]
  {
    hide EncodedChar;
    CharInProgram(c);
    var e := EncodedChar(AnsiC, c);
    assert (e + rest)[|e|..] == rest;
  }

  /** The output for markup holds none of the characters that are markup, with an ampersand at the beginning of an entity
      only; that for program text is plain characters and escapes. */
  lemma {:induction false} OutputIsClean(code: Code, s: string)
    ensures if code.Xml? then IsMarkupText(Encoded(code, s)) else IsProgramText(Encoded(code, s))
  {
    if s != "" {
      hide EncodedChar, IsMarkupText, IsProgramText;
      OutputIsClean(code, s[1..]);
      if code.Xml? {
        CharIsMarkupText(s[0]);
        MarkupTextConcat(EncodedChar(Xml, s[0]), Encoded(code, s[1..]));
      } else {
        CharIsProgramText(s[0], Encoded(code, s[1..]));
      }
    }
  }

  /** Text without any of these characters is copied. */
  lemma {:induction false} PlainIsCopied(code: Code, s: string)
    requires forall i :: 0 <= i < |s| ==> if code.Xml? then IsMarkupText([s[i]]) else IsPlainInProgram(s[i])
    ensures Encoded(code, s) == s
  {
    forall i | 0 <= i < |s| ensures code.Entity(s[i]) == "" {
      if code.Xml? { CharIsMarkupText(s[i]); } else { CharIsProgramText(s[i], ""); }
    }
    EncodedPlain(code, s);
  }
}
