/** Escaping of byte strings for SQL and for file names. Escaped text is ASCII, so it is given as bytes. */
module Escaping {
  import opened Basics

  newtype byte = x: int | 0 <= x < 256

  type Bytes = seq<byte>

  const TAB: byte := 9
  const NEWLINE: byte := 10
  const BACKSPACE: byte := 8
  const FORM_FEED: byte := 12
  const RETURN: byte := 13
  const QUOTE: byte := 39      // '
  const PERCENT: byte := 37    // %
  const DOT: byte := 46        // .
  const BACKSLASH: byte := 92  // \
  const BACKTICK: byte := 96   // `
  const UNDERSCORE: byte := 95 // _
  const LOWER_A: byte := 97
  const UPPER_A: byte := 65
  const DIGIT_0: byte := 48
  const LETTER_B: byte := 98
  const LETTER_F: byte := 102
  const LETTER_N: byte := 110
  const LETTER_R: byte := 114
  const LETTER_T: byte := 116
  const LETTER_X: byte := 120

  // ---------------------------------------------------------------- hexadecimal digits

  function HexDigit(v: int, a: byte): byte
    requires 0 <= v < 16 && (a == LOWER_A || a == UPPER_A)
  {
    if v < 10 then DIGIT_0 + v as byte else a + (v - 10) as byte
  }

  predicate IsHex(b: byte) {
    48 <= b <= 57 || 97 <= b <= 102 || 65 <= b <= 70
  }

  predicate IsUpperHex(b: byte) {
    48 <= b <= 57 || 65 <= b <= 70
  }

  function HexValue(b: byte): int
    requires IsHex(b)
    ensures 0 <= HexValue(b) < 16
  {
    if b <= 57 then b as int - 48 else if b <= 70 then b as int - 55 else b as int - 87
  }

  function HexPair(hi: byte, lo: byte): byte
    requires IsHex(hi) && IsHex(lo)
  {
    (HexValue(hi) * 16 + HexValue(lo)) as byte
  }

  /** Two digits of a byte and their value again. */
  lemma HexRoundTrip(b: byte, a: byte)
    requires a == LOWER_A || a == UPPER_A
    ensures var hi, lo := HexDigit(b as int / 16, a), HexDigit(b as int % 16, a);
      IsHex(hi) && IsHex(lo) && HexPair(hi, lo) == b && (a == UPPER_A ==> IsUpperHex(hi) && IsUpperHex(lo))
  {
    assert b as int == (b as int / 16) * 16 + b as int % 16;
  }

  // ---------------------------------------------------------------- SQL

  /** The escape maps: the letter after the backslash, for the bytes that have one. */
  function EscapeLetter(b: byte, quote: byte): Option<byte> {
    if b == BACKSPACE then Some(LETTER_B)
    else if b == FORM_FEED then Some(LETTER_F)
    else if b == RETURN then Some(LETTER_R)
    else if b == NEWLINE then Some(LETTER_N)
    else if b == TAB then Some(LETTER_T)
    else if b == 0 then Some(DIGIT_0)
    else if b == BACKSLASH || b == quote then Some(b)
    else None
  }

  function EscapeByte(b: byte, quote: byte): Bytes {
    if EscapeLetter(b, quote).Some? then [BACKSLASH, EscapeLetter(b, quote).value]
    else if b < 0x20 || b > 0x7E then
      [BACKSLASH, LETTER_X, HexDigit(b as int / 16, LOWER_A), HexDigit(b as int % 16, LOWER_A)]
    else [b]
  }

  function EscapeAll(value: Bytes, quote: byte): Bytes {
    if value == [] then [] else EscapeByte(value[0], quote) + EscapeAll(value[1..], quote)
  }

  function Quoted(value: Bytes, quote: byte): Bytes {
    [quote] + EscapeAll(value, quote) + [quote]
  }

  /** The loop that fills the output buffer. */
  method EscapeBytes(value: Bytes, quote: byte) returns (out: Bytes)
    ensures out == Quoted(value, quote)
  {
    out := [quote];
    for i := 0 to |value|
      invariant out == [quote] + EscapeAll(value[..i], quote)
    {
      EscapeAllAppend(value[..i], value[i], quote);
      PrefixStep(value, i);
      var letter := EscapeLetter(value[i], quote);
      if letter.Some? {
        out := out + [BACKSLASH, letter.value];
      } else if value[i] < 0x20 || value[i] > 0x7E {
        out := out + [BACKSLASH, LETTER_X, HexDigit(value[i] as int / 16, LOWER_A), HexDigit(value[i] as int % 16, LOWER_A)];
      } else {
        out := out + [value[i]];
      }
    }
    assert value[..|value|] == value;
    out := out + [quote];
  }

  lemma {:induction false} EscapeAllAppend(value: Bytes, b: byte, quote: byte)
    ensures EscapeAll(value + [b], quote) == EscapeAll(value, quote) + EscapeByte(b, quote)
  {
    if value == [] {
      assert (value + [b])[1..] == [];
    } else {
      assert (value + [b])[1..] == value[1..] + [b];
      EscapeAllAppend(value[1..], b, quote);
    }
  }

  datatype SqlError = NotEnclosed | IncompleteEscape | UnescapedQuote | UnescapedBackslash

  /** What a backslash followed by a letter stands for; any other byte stands for itself. */
  function Unletter(b: byte): byte {
    if b == LETTER_B then BACKSPACE
    else if b == LETTER_F then FORM_FEED
    else if b == LETTER_R then RETURN
    else if b == LETTER_N then NEWLINE
    else if b == LETTER_T then TAB
    else if b == DIGIT_0 then 0
    else b
  }

  /** The substitution over the text between the quotes: alternatives tried in order at each position. */
  function UnescapeAll(s: Bytes): Result<Bytes, SqlError>
    decreases |s|
  {
    if s == [] then Ok([])
    else if s[0] == BACKSLASH && |s| >= 4 && s[1] == LETTER_X && IsHex(s[2]) && IsHex(s[3]) then
      Prepend(HexPair(s[2], s[3]), UnescapeAll(s[4..]))
    else if s[0] == BACKSLASH && |s| >= 2 && s[1] != LETTER_X then Prepend(Unletter(s[1]), UnescapeAll(s[2..]))
    else if s[0] == BACKSLASH && |s| >= 2 then Err(IncompleteEscape)
    else if s[0] == BACKSLASH then Err(UnescapedBackslash)
    else if s[0] == QUOTE then Err(UnescapedQuote)
    else Prepend(s[0], UnescapeAll(s[1..]))
  }

  function Prepend(b: byte, rest: Result<Bytes, SqlError>): Result<Bytes, SqlError> {
    if rest.Ok? then Ok([b] + rest.value) else rest
  }

  function UnescapeSqlString(s: Bytes): Result<Bytes, SqlError> {
    if |s| >= 2 && s[0] == QUOTE && s[|s| - 1] == QUOTE then UnescapeAll(s[1..|s| - 1]) else Err(NotEnclosed)
  }

  lemma UnescapeOne(b: byte, rest: Bytes)
    ensures UnescapeAll(EscapeByte(b, QUOTE) + rest) == Prepend(b, UnescapeAll(rest))
  {
    var s := EscapeByte(b, QUOTE) + rest;
    HexRoundTrip(b, LOWER_A);
    assert s[|EscapeByte(b, QUOTE)|..] == rest;
  }

  lemma {:induction false} UnescapeEscapeAll(value: Bytes)
    ensures UnescapeAll(EscapeAll(value, QUOTE)) == Ok(value)
  {
    if value == [] {
    } else {
      UnescapeEscapeAll(value[1..]);
      UnescapeOne(value[0], EscapeAll(value[1..], QUOTE));
      assert [value[0]] + value[1..] == value;
    }
  }

  /** Unescaping undoes escaping, for every byte string. */
  lemma SqlStringRoundTrip(value: Bytes)
    ensures UnescapeSqlString(Quoted(value, QUOTE)) == Ok(value)
  {
    var s := Quoted(value, QUOTE);
    assert s[1..|s| - 1] == EscapeAll(value, QUOTE);
    UnescapeEscapeAll(value);
  }

  // ---------------------------------------------------------------- SQL tokens

  /** The repeated part of the String and QuotedIdentifier patterns: a hex escape, a backslash pair,
      or a plain byte. */
  predicate TokenBody(s: Bytes, quote: byte)
    decreases |s|
  {
    s == []
    || (|s| >= 4 && s[0] == BACKSLASH && s[1] == LETTER_X && IsHex(s[2]) && IsHex(s[3]) && TokenBody(s[4..], quote))
    || (|s| >= 2 && s[0] == BACKSLASH && s[1] != LETTER_X && TokenBody(s[2..], quote))
    || (s[0] != BACKSLASH && s[0] != quote && TokenBody(s[1..], quote))
  }

  predicate MatchesToken(s: Bytes, quote: byte) {
    |s| >= 2 && s[0] == quote && s[|s| - 1] == quote && TokenBody(s[1..|s| - 1], quote)
  }

  lemma {:induction false} EscapedIsTokenBody(value: Bytes, quote: byte)
    requires quote == QUOTE || quote == BACKTICK
    ensures TokenBody(EscapeAll(value, quote), quote)
  {
    if value == [] {
    } else {
      EscapedIsTokenBody(value[1..], quote);
      TokenBodyStep(value[0], EscapeAll(value[1..], quote), quote);
    }
  }

  lemma TokenBodyStep(b: byte, rest: Bytes, quote: byte)
    requires (quote == QUOTE || quote == BACKTICK) && TokenBody(rest, quote)
    ensures TokenBody(EscapeByte(b, quote) + rest, quote)
  {
    HexRoundTrip(b, LOWER_A);
    var s := EscapeByte(b, quote) + rest;
    assert s[|EscapeByte(b, quote)|..] == rest;
  }

  /** What is written is read back as one String token (or one QuotedIdentifier token). */
  lemma QuotedMatchesToken(value: Bytes, quote: byte)
    requires quote == QUOTE || quote == BACKTICK
    ensures MatchesToken(Quoted(value, quote), quote)
  {
    var s := Quoted(value, quote);
    assert s[1..|s| - 1] == EscapeAll(value, quote);
    EscapedIsTokenBody(value, quote);
  }

  /** A text can be unescaped exactly when it is a String token. */
  lemma UnescapesIffToken(s: Bytes)
    ensures UnescapeSqlString(s).Ok? <==> MatchesToken(s, QUOTE)
  {
    if |s| >= 2 {
      BodyUnescapes(s[1..|s| - 1]);
    }
  }

  lemma {:induction false} BodyUnescapes(s: Bytes)
    ensures UnescapeAll(s).Ok? <==> TokenBody(s, QUOTE)
    decreases |s|
  {
    if s != [] {
      BodyUnescapes(s[1..]);
      if |s| >= 2 {
        BodyUnescapes(s[2..]);
      }
      if |s| >= 4 {
        BodyUnescapes(s[4..]);
      }
    }
  }

  /** Every byte written is printable ASCII; a control character with a letter of its own, a backslash and
      the quote take two bytes, other unprintable bytes four, and all others stand for themselves. */
  lemma EscapedByteIs(b: byte, quote: byte)
    requires quote == QUOTE || quote == BACKTICK
    ensures forall c :: c in EscapeByte(b, quote) ==> 0x20 <= c <= 0x7E
    ensures |EscapeByte(b, quote)| == 2 <==> b in {8, 12, 13, 10, 9, 0, 92, quote}
    ensures |EscapeByte(b, quote)| == 4 <==> b !in {8, 12, 13, 10, 9, 0} && (b < 32 || b > 126)
    ensures |EscapeByte(b, quote)| == 1 ==> EscapeByte(b, quote) == [b]
    ensures |EscapeByte(b, quote)| in {1, 2, 4}
  {
    HexRoundTrip(b, LOWER_A);
  }

  // ---------------------------------------------------------------- quoted identifiers

  function EscapeSqlIdentifier(name: Bytes): Bytes {
    Quoted(name, BACKTICK)
  }

  /** `db`.`table` */
  function TableIdentifier(database: Bytes, table: Bytes): Bytes {
    EscapeSqlIdentifier(database) + [DOT] + EscapeSqlIdentifier(table)
  }

  lemma EscapedByteInjective(a: byte, b: byte, u: Bytes, v: Bytes)
    requires EscapeByte(a, BACKTICK) + u == EscapeByte(b, BACKTICK) + v
    ensures a == b && u == v
  {
    var s, t := EscapeByte(a, BACKTICK) + u, EscapeByte(b, BACKTICK) + v;
    HexRoundTrip(a, LOWER_A);
    HexRoundTrip(b, LOWER_A);
    assert s[0] == t[0];
    if s[0] == BACKSLASH {
      assert s[1] == t[1];
      if s[1] == LETTER_X {
        assert s[2] == t[2] && s[3] == t[3];
      }
    }
    assert u == s[|EscapeByte(a, BACKTICK)|..] && v == t[|EscapeByte(b, BACKTICK)|..];
  }

  lemma ClosesIffEmpty(a: Bytes, u: Bytes)
    ensures (EscapeAll(a, BACKTICK) + ([BACKTICK] + u))[0] == BACKTICK <==> a == []
  {
    if a != [] {
      assert (EscapeAll(a, BACKTICK) + ([BACKTICK] + u))[0] == EscapeByte(a[0], BACKTICK)[0];
    }
  }

  lemma EscapeAllSplits(value: Bytes, after: Bytes)
    requires value != []
    ensures EscapeAll(value, BACKTICK) + after == EscapeByte(value[0], BACKTICK) + (EscapeAll(value[1..], BACKTICK) + after)
  {
  }

  /** The closing backtick is found where the name ends, whatever follows. */
  lemma {:induction false} IdentifierPrefixFree(a: Bytes, b: Bytes, u: Bytes, v: Bytes)
    requires EscapeAll(a, BACKTICK) + ([BACKTICK] + u) == EscapeAll(b, BACKTICK) + ([BACKTICK] + v)
    ensures a == b && u == v
  {
    var s := EscapeAll(a, BACKTICK) + ([BACKTICK] + u);
    ClosesIffEmpty(a, u);
    ClosesIffEmpty(b, v);
    if a == [] {
      assert s[1..] == u && s[1..] == v;
    } else {
      var ra := EscapeAll(a[1..], BACKTICK) + ([BACKTICK] + u);
      var rb := EscapeAll(b[1..], BACKTICK) + ([BACKTICK] + v);
      EscapeAllSplits(a, [BACKTICK] + u);
      EscapeAllSplits(b, [BACKTICK] + v);
      EscapedByteInjective(a[0], b[0], ra, rb);
      IdentifierPrefixFree(a[1..], b[1..], u, v);
      assert a == [a[0]] + a[1..] && b == [b[0]] + b[1..];
    }
  }

  lemma IdentifierTail(name: Bytes, after: Bytes)
    ensures (EscapeSqlIdentifier(name) + after)[1..] == EscapeAll(name, BACKTICK) + ([BACKTICK] + after)
  {
  }

  lemma QuotedPrefixFree(a: Bytes, b: Bytes, u: Bytes, v: Bytes)
    requires EscapeSqlIdentifier(a) + u == EscapeSqlIdentifier(b) + v
    ensures a == b && u == v
  {
    IdentifierTail(a, u);
    IdentifierTail(b, v);
    IdentifierPrefixFree(a, b, u, v);
  }

  /** Distinct tables never share a quoted name. */
  lemma TableIdentifierInjective(db1: Bytes, t1: Bytes, db2: Bytes, t2: Bytes)
    requires TableIdentifier(db1, t1) == TableIdentifier(db2, t2)
    ensures db1 == db2 && t1 == t2
  {
    var u, v := [DOT] + EscapeSqlIdentifier(t1), [DOT] + EscapeSqlIdentifier(t2);
    TableIdentifierSplits(db1, t1);
    TableIdentifierSplits(db2, t2);
    QuotedPrefixFree(db1, db2, u, v);
    assert u[1..] == EscapeSqlIdentifier(t1) + [] && v[1..] == EscapeSqlIdentifier(t2) + [];
    QuotedPrefixFree(t1, t2, [], []);
  }

  lemma TableIdentifierSplits(db: Bytes, t: Bytes)
    ensures TableIdentifier(db, t) == EscapeSqlIdentifier(db) + ([DOT] + EscapeSqlIdentifier(t))
  {
  }

  // ---------------------------------------------------------------- file names

  predicate IsNameByte(b: byte) {
    48 <= b <= 57 || 65 <= b <= 90 || 97 <= b <= 122 || b == UNDERSCORE
  }

  function EscapeNameByte(b: byte): Bytes {
    if IsNameByte(b) then [b]
    else [PERCENT, HexDigit(b as int / 16, UPPER_A), HexDigit(b as int % 16, UPPER_A)]
  }

  function EscapeForFileName(name: Bytes): Bytes {
    if name == [] then [] else EscapeNameByte(name[0]) + EscapeForFileName(name[1..])
  }

  function UnescapeFromFileName(s: Bytes): Bytes
    decreases |s|
  {
    if s == [] then []
    else if |s| >= 3 && s[0] == PERCENT && IsUpperHex(s[1]) && IsUpperHex(s[2]) then
      [HexPair(s[1], s[2])] + UnescapeFromFileName(s[3..])
    else [s[0]] + UnescapeFromFileName(s[1..])
  }

  lemma UnescapeNameOne(b: byte, rest: Bytes)
    ensures UnescapeFromFileName(EscapeNameByte(b) + rest) == [b] + UnescapeFromFileName(rest)
  {
    var s := EscapeNameByte(b) + rest;
    HexRoundTrip(b, UPPER_A);
    assert s[|EscapeNameByte(b)|..] == rest;
  }

  /** Unescaping undoes escaping, so escaped names are as distinct as the names. */
  lemma {:induction false} FileNameRoundTrip(name: Bytes)
    ensures UnescapeFromFileName(EscapeForFileName(name)) == name
  {
    if name == [] {
    } else {
      FileNameRoundTrip(name[1..]);
      UnescapeNameOne(name[0], EscapeForFileName(name[1..]));
      assert [name[0]] + name[1..] == name;
    }
  }

  /** An escaped name is plain: letters, digits, '_' and '%' only, so it is one path component. */
  lemma {:induction false} EscapedNameIsPlain(name: Bytes)
    ensures forall b :: b in EscapeForFileName(name) ==> IsNameByte(b) || b == PERCENT
    ensures name != [] ==> EscapeForFileName(name) != []
    ensures |EscapeForFileName(name)| >= |name|
  {
    if name == [] {
    } else {
      HexRoundTrip(name[0], UPPER_A);
      EscapedNameIsPlain(name[1..]);
    }
  }

  /** A name is its own escaped form exactly when it consists of letters, digits and underscores. */
  lemma {:induction false} PlainNameIff(name: Bytes)
    ensures EscapeForFileName(name) == name <==>
      forall b :: b in name ==> 48 <= b <= 57 || 65 <= b <= 90 || 97 <= b <= 122 || b == 95
  {
    if name == [] {
    } else {
      assert name == [name[0]] + name[1..];
      PlainNameIff(name[1..]);
      EscapedNameIsPlain(name[1..]);
      if IsNameByte(name[0]) {
        assert EscapeForFileName(name) == [name[0]] + EscapeForFileName(name[1..]);
        assert EscapeForFileName(name)[1..] == EscapeForFileName(name[1..]);
        assert forall b :: b in name <==> b == name[0] || b in name[1..];
      } else {
        assert |EscapeForFileName(name)| > |name|;
        assert name[0] in name;
      }
    }
  }

  // ---------------------------------------------------------------- text

  function ToText(s: Bytes): string {
    seq(|s|, i requires 0 <= i < |s| => s[i] as char)
  }

  function Utf8(c: char): Bytes {
    var v := c as int;
    if v < 0x80 then [v as byte]
    else if v < 0x800 then [(0xC0 + v / 0x40) as byte, (0x80 + v % 0x40) as byte]
    else if v < 0x1_0000 then
      [(0xE0 + v / 0x1000) as byte, (0x80 + v / 0x40 % 0x40) as byte, (0x80 + v % 0x40) as byte]
    else
      [(0xF0 + v / 0x4_0000) as byte, (0x80 + v / 0x1000 % 0x40) as byte, (0x80 + v / 0x40 % 0x40) as byte,
       (0x80 + v % 0x40) as byte]
  }

  /** `str.encode()`. */
  function FromText(t: string): Bytes {
    if t == "" then [] else Utf8(t[0]) + FromText(t[1..])
  }

  lemma {:induction false} AsciiRoundTrip(s: Bytes)
    requires forall b :: b in s ==> b < 128
    ensures FromText(ToText(s)) == s
  {
    if s == [] {
    } else {
      assert forall b :: b in s[1..] ==> b in s;
      assert s[0] in s && Utf8(ToText(s)[0]) == [s[0]];
      AsciiRoundTrip(s[1..]);
      assert ToText(s)[1..] == ToText(s[1..]);
      assert [s[0]] + s[1..] == s;
    }
  }

  /** `escape_for_file_name` and `unescape_from_file_name` as they take and give text. */
  function NameToText(name: Bytes): string {
    ToText(EscapeForFileName(name))
  }

  function TextToName(t: string): Bytes {
    UnescapeFromFileName(FromText(t))
  }

  lemma NameTextRoundTrip(name: Bytes)
    ensures TextToName(NameToText(name)) == name
    ensures NoSlash(NameToText(name))
    ensures name != [] ==> NameToText(name) != ""
  {
    EscapedNameIsPlain(name);
    AsciiRoundTrip(EscapeForFileName(name));
    FileNameRoundTrip(name);
    var t := NameToText(name);
    forall c | c in t ensures c != '/' {
      var i :| 0 <= i < |t| && t[i] == c;
      assert EscapeForFileName(name)[i] in EscapeForFileName(name);
    }
  }
}
