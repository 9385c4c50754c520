// PLDM versions: parsed from strings such as "3.7.10a", carried as 32-bit words in BCD.
module Versions {
  import opened Bytes

  datatype PldmVersion = PldmVersion(alpha: byte, update: byte, minor: byte, major: byte)

  /** An update of 0xFF stands for no update field. */
  const NO_UPDATE: byte := 0xFF

  // ---- Parsing ----

  predicate IsDigit(c: char) { '0' <= c <= '9' }

  predicate IsLetter(c: char) { 'a' <= c <= 'z' || 'A' <= c <= 'Z' }

  function Split(s: string): (parts: seq<string>)
    ensures parts != []
  {
    if s == "" then [""]
    else
      var rest := Split(s[1..]);
      if s[0] == '.' then [""] + rest else [[s[0]] + rest[0]] + rest[1..]
  }

  function DigitsValue(s: string): nat
    requires forall i :: 0 <= i < |s| ==> IsDigit(s[i])
  {
    if s == "" then 0
    else
      assert IsDigit(s[|s| - 1]);
      10 * DigitsValue(s[..|s| - 1]) + (s[|s| - 1] as int - '0' as int)
  }

  /** Parsing a `u8`: an optional plus sign, then at least one digit, at most 255 in all. */
  function ParseU8(s: string): Option<byte> {
    var digits := if s != "" && s[0] == '+' then s[1..] else s;
    if digits == "" || exists i :: 0 <= i < |digits| && !IsDigit(digits[i]) then None
    else if DigitsValue(digits) > 255 then None
    else Some(DigitsValue(digits))
  }

  /** Takes a letter off the end of a field. */
  function StripLetter(s: string, alpha: byte): (byte, string) {
    if s != "" && IsLetter(s[|s| - 1]) then (s[|s| - 1] as byte, s[..|s| - 1]) else (alpha, s)
  }

  /** `PldmVersion::try_from` on an ASCII string: two or three fields, a letter after the minor
      or the update field, and the update from the later of the two. */
  function Parse(s: string): Option<PldmVersion> {
    var parts := Split(s);
    if |parts| < 2 || |parts| > 3 then None
    else
      var updatePart := if |parts| == 3 then parts[2] else "FF";
      var (minorAlpha, minorStr) := StripLetter(parts[1], 0);
      var (alpha, updateStr) :=
        if updatePart != "FF" then StripLetter(updatePart, minorAlpha) else (minorAlpha, updatePart);
      var update := if updateStr == "FF" then Some(NO_UPDATE) else ParseU8(updateStr);
      match (ParseU8(parts[0]), ParseU8(minorStr), update)
      case (Some(major), Some(minor), Some(u)) => Some(PldmVersion(alpha, u, minor, major))
      case _ => None
  }

  // ---- Rendering ----

  function Decimal(n: nat): (s: string)
    ensures s != "" && forall i :: 0 <= i < |s| ==> IsDigit(s[i])
  {
    if n < 10 then [n as char + '0'] else Decimal(n / 10) + [(n % 10) as char + '0']
  }

  /** "major.minor[.update][letter]" */
  function Render(major: byte, minor: byte, update: Option<byte>, letter: Option<char>): string {
    Decimal(major) + ("." + (Decimal(minor) +
      ((if update.Some? then "." + Decimal(update.value) else "") + (if letter.Some? then [letter.value] else ""))))
  }

  lemma {:induction false} DecimalValue(n: nat)
    ensures DigitsValue(Decimal(n)) == n
  {
    if n < 10 {
      assert Decimal(n)[..0] == "";
    } else {
      DecimalValue(n / 10);
      var s := Decimal(n);
      assert s[..|s| - 1] == Decimal(n / 10);
    }
  }

  lemma ParseDecimal(n: byte)
    ensures ParseU8(Decimal(n)) == Some(n)
  {
    DecimalValue(n);
    assert IsDigit(Decimal(n)[0]);
  }

  predicate NoDots(s: string) { forall i :: 0 <= i < |s| ==> s[i] != '.' }

  lemma {:induction false} SplitWhole(s: string)
    requires NoDots(s)
    ensures Split(s) == [s]
  {
    if s == "" {
    } else {
      SplitWhole(s[1..]);
      assert [s[0]] + s[1..] == s;
    }
  }

  lemma {:induction false} SplitFirst(s: string, rest: string)
    requires NoDots(s)
    ensures Split(s + ("." + rest)) == [s] + Split(rest)
  {
    var whole := s + ("." + rest);
    if s == "" {
      assert whole[1..] == rest;
    } else {
      SplitFirst(s[1..], rest);
      assert whole[1..] == s[1..] + ("." + rest);
      assert [s[0]] + s[1..] == s;
    }
  }

  // ---- What parses ----

  function Join(parts: seq<string>): string
    requires parts != []
  {
    if |parts| == 1 then parts[0] else parts[0] + ("." + Join(parts[1..]))
  }

  function Dots(s: string): nat { if s == "" then 0 else Dots(s[1..]) + (if s[0] == '.' then 1 else 0) }

  /** Splitting loses nothing: the parts hold no dots and joined with dots they are the string. */
  lemma {:induction false} SplitJoins(s: string)
    ensures Join(Split(s)) == s && |Split(s)| == Dots(s) + 1
    ensures forall i :: 0 <= i < |Split(s)| ==> NoDots(Split(s)[i])
  {
    if s == "" {
    } else {
      SplitJoins(s[1..]);
      var rest := Split(s[1..]);
      assert s == [s[0]] + s[1..];
      if s[0] == '.' {
        assert Split(s)[1..] == rest;
        assert Join(Split(s)) == "" + ("." + s[1..]);
      } else {
        assert Split(s)[1..] == rest[1..];
      }
    }
  }

  /** One or two dots, whole fields from 0 to 255 once a letter is taken off, and nothing else:
      only then does a string parse, and the fields are the numbers in it. */
  lemma ParsedFields(s: string)
    ensures Parse(s).Some? ==> Dots(s) in {1, 2} && Join(Split(s)) == s
    ensures Parse(s).Some? ==>
      var v, fields := Parse(s).value, Split(s);
      && ParseU8(fields[0]) == Some(v.major)
      && ParseU8(StripLetter(fields[1], 0).1) == Some(v.minor)
      && (|fields| == 2 ==> v.update == NO_UPDATE && v.alpha == StripLetter(fields[1], 0).0)
      && (|fields| == 3 && fields[2] != "FF" ==>
            var (letter, update) := StripLetter(fields[2], StripLetter(fields[1], 0).0);
            v.alpha == letter && Some(v.update) == if update == "FF" then Some(NO_UPDATE) else ParseU8(update))
  {
    hide ParseU8, StripLetter;
    SplitJoins(s);
  }

  /** A number is read digit by digit, the last one counting least. */
  lemma DigitsAppend(s: string, c: char)
    requires (forall i :: 0 <= i < |s| ==> IsDigit(s[i])) && IsDigit(c)
    ensures ParseU8(s + [c]) == if DigitsValue(s) * 10 + (c as int - '0' as int) > 255 then None
                                else Some(DigitsValue(s) * 10 + (c as int - '0' as int))
  {
    var t := s + [c];
    assert t[..|t| - 1] == s;
    assert IsDigit(t[0]);
  }

  lemma StripRendered(n: byte, letter: Option<char>, alpha: byte)
    requires letter.Some? ==> IsLetter(letter.value)
    ensures var s := Decimal(n) + (if letter.Some? then [letter.value] else "");
      && NoDots(s) && s != "FF"
      && StripLetter(s, alpha) == (if letter.Some? then letter.value as byte else alpha, Decimal(n))
  {
    var s := Decimal(n) + (if letter.Some? then [letter.value] else "");
    assert IsDigit(s[0]);
    if letter.Some? {
      assert s[..|s| - 1] == Decimal(n);
    } else {
      assert s == Decimal(n);
      assert IsDigit(s[|s| - 1]);
    }
  }

  /** Parsing what was rendered returns the fields it was rendered from; no update reads as 0xFF. */
  lemma ParseRendered(major: byte, minor: byte, update: Option<byte>, letter: Option<char>)
    requires letter.Some? ==> IsLetter(letter.value)
    ensures Parse(Render(major, minor, update, letter)) ==
      Some(PldmVersion(if letter.Some? then letter.value as byte else 0,
                       if update.Some? then update.value else NO_UPDATE, minor, major))
  {
    hide Decimal, ParseU8, StripLetter, Split;
    var tail := if letter.Some? then [letter.value] else "";
    ParseDecimal(major);
    ParseDecimal(minor);
    if update.Some? {
      StripRendered(minor, None, 0);
      StripRendered(update.value, letter, 0);
      ParseDecimal(update.value);
      var second := Decimal(minor) + ("." + (Decimal(update.value) + tail));
      assert Render(major, minor, update, letter) == Decimal(major) + ("." + second);
      SplitFirst(Decimal(major), second);
      SplitFirst(Decimal(minor), Decimal(update.value) + tail);
      SplitWhole(Decimal(update.value) + tail);
      assert Decimal(minor) + "" == Decimal(minor);
      assert IsDigit(Decimal(update.value)[0]);
    } else {
      StripRendered(minor, letter, 0);
      assert "" + tail == tail;
      SplitFirst(Decimal(major), Decimal(minor) + tail);
      SplitWhole(Decimal(minor) + tail);
    }
  }

  // ---- BCD ----

  /** One byte of two BCD digits; 0xF in the high nibble marks a single digit. The shift drops
      what does not fit a byte. */
  function BcdByte(n: byte): byte {
    if n < 10 then 0xF0 + n else n as int / 10 * 16 % 0x100 + n as int % 10
  }

  function FromBcdByte(b: byte): byte {
    if b / 16 == 15 then b % 16 else b / 16 * 10 + b % 16
  }

  /** `bcd_encode_to_ver32` */
  function Encode(v: PldmVersion): u32 {
    var update: byte := if v.update == NO_UPDATE then 0xFF else BcdByte(v.update);
    BcdByte(v.major) as int * 0x100_0000 + BcdByte(v.minor) as int * 0x1_0000 + update as int * 0x100 + v.alpha as int
  }

  /** `bcd_decode_from_ver32` */
  function Decode(w: u32): PldmVersion {
    var update: byte := w / 0x100 % 0x100;
    PldmVersion(w % 0x100, if update == 0xFF then update else FromBcdByte(update),
                FromBcdByte(w / 0x1_0000 % 0x100), FromBcdByte(w / 0x100_0000))
  }

  lemma BcdByteRoundTripIff(n: byte)
    ensures FromBcdByte(BcdByte(n)) == n <==> n < 150
  {
    var d := n as int / 10;
    if 160 <= n { assert d * 16 % 0x100 == (d - 16) * 16; }
  }

  lemma BcdByteIsPresent(n: byte)
    ensures BcdByte(n) != 0xFF
  {
  }

  lemma FieldsOfWord(a: byte, b: byte, c: byte, d: byte)
    ensures var w := a as int * 0x100_0000 + b as int * 0x1_0000 + c as int * 0x100 + d as int;
      && w / 0x100_0000 == a as int && w / 0x1_0000 % 0x100 == b as int
      && w / 0x100 % 0x100 == c as int && w % 0x100 == d as int
  {
    var w := a as int * 0x100_0000 + b as int * 0x1_0000 + c as int * 0x100 + d as int;
    assert w / 0x100 == a as int * 0x1_0000 + b as int * 0x100 + c as int;
    assert w / 0x1_0000 == a as int * 0x100 + b as int;
  }

  /** A version survives the 32-bit form exactly when no field is in the range from 150 on,
      where the tens overrun their nibble; a missing update survives too. */
  lemma Ver32RoundTripIff(v: PldmVersion)
    ensures Decode(Encode(v)) == v <==> v.major < 150 && v.minor < 150 && (v.update < 150 || v.update == NO_UPDATE)
  {
    hide BcdByte, FromBcdByte;
    var update: byte := if v.update == NO_UPDATE then 0xFF else BcdByte(v.update);
    FieldsOfWord(BcdByte(v.major), BcdByte(v.minor), update, v.alpha);
    BcdByteRoundTripIff(v.major);
    BcdByteRoundTripIff(v.minor);
    BcdByteRoundTripIff(v.update);
    BcdByteIsPresent(v.update);
  }

  /** So a rendered version with small fields comes back whole through the string and the word. */
  lemma RenderedVersionSurvives(major: byte, minor: byte, update: Option<byte>, letter: Option<char>)
    requires letter.Some? ==> IsLetter(letter.value)
    requires major < 150 && minor < 150 && (update.Some? ==> update.value < 150)
    ensures var v := Parse(Render(major, minor, update, letter));
      && v.Some? && Decode(Encode(v.value)) == v.value
      && v.value == PldmVersion(if letter.Some? then letter.value as byte else 0,
                                if update.Some? then update.value else NO_UPDATE, minor, major)
  {
    hide Parse, Render, Encode, Decode;
    ParseRendered(major, minor, update, letter);
    Ver32RoundTripIff(Parse(Render(major, minor, update, letter)).value);
  }
}
