/** Base64 by the tables of RFC 4648 (tables 1 and 2), and a decoder that reads them. */
module Base64Tables {
  import opened ByteStrings
  import opened Options
  import opened Base64

  const UPPER: string := "ABCDEFGHIJKLM" + "NOPQRSTUVWXYZ"
  const LOWER: string := "abcdefghijklm" + "nopqrstuvwxyz"
  const DIGITS: string := "0123456789"

  const STD_TABLE: string := UPPER + LOWER + DIGITS + "+/"
  const URL_TABLE: string := UPPER + LOWER + DIGITS + "-_"

  function Table(a: Alphabet): (table: string)
    ensures |table| == 64
  {
    match a
    case Std => STD_TABLE
    case Url => URL_TABLE
  }

  lemma UpperLetters(v: int, a: Alphabet)
    requires 0 <= v < 26
    ensures Table(a)[v] as int == 65 + v
  {
    assert Table(a)[v] == UPPER[v];
  }

  lemma LowerLetters(v: int, a: Alphabet)
    requires 26 <= v < 52
    ensures Table(a)[v] as int == 71 + v
  {
    hide Table;
    InTable(v, a);
    assert LOWER[v - 26] as int == 97 + (v - 26);
  }

  lemma InTable(v: int, a: Alphabet)
    requires 26 <= v < 52
    ensures |LOWER| == 26 && Table(a)[v] == LOWER[v - 26]
  {
    hide UPPER, LOWER, DIGITS;
    LetterCounts();
    assert Table(a) == UPPER + LOWER + DIGITS + (if a == Std then "+/" else "-_");
  }

  lemma LetterCounts()
    ensures |UPPER| == |LOWER| == 26
  {
  }

  lemma DigitsAndSymbols(v: int, a: Alphabet)
    requires 52 <= v < 64
    ensures Char(v, a) == Table(a)[v] as int
  {
  }

  /** The encoder's characters are those of the tables. */
  lemma CharsAreTabled(v: int, a: Alphabet)
    requires 0 <= v < 64
    ensures Char(v, a) == Table(a)[v] as int
  {
    hide Table, UPPER, LOWER, DIGITS, STD_TABLE, URL_TABLE;
    if v < 26 {
      UpperLetters(v, a);
    } else if v < 52 {
      LowerLetters(v, a);
    } else {
      DigitsAndSymbols(v, a);
    }
  }

  /**
   Character t of a base64 text stands for bits 6 * t to 6 * t + 5 of the data, by the table; after
   the characters that carry bits there is padding only, up to a multiple of four characters.
   */
  lemma EncodeIsBitwise(data: Bytes, a: Alphabet, padded: bool, t: nat)
    requires t < |Encode(data, a, padded)|
    ensures Encode(data, a, padded)[t] == if t < DataChars(|data|) then Table(a)[Sextet(data, t)] as int else '=' as int
  {
    if t < DataChars(|data|) {
      EncodeReadsSextets(data, a, padded, t);
      CharsAreTabled(Sextet(data, t), a);
    } else {
      var _ := PaddedAtEnd(data, a);
      EncodedLength(data, a, false);
    }
  }

  // ----- Decoding -----

  /** The number for which a character stands: its place in the table, from index i on; -1 if none. */
  function ValueOf(c: Byte, a: Alphabet, i: nat): (v: int)
    requires i <= 64
    ensures -1 <= v < 64
    decreases 64 - i
  {
    if i == 64 then -1 else if Table(a)[i] as int == c then i else ValueOf(c, a, i + 1)
  }

  /** Four numbers of six bits side by side. */
  function Joined(w: int, x: int, y: int, z: int): int {
    0x40000 * w + 0x1000 * x + 0x40 * y + z
  }

  /** The three bytes of a number of 24 bits. */
  function ThreeBytes(n: int): Bytes
    requires 0 <= n < 0x1000000
  {
    [n / 0x100 / 0x100, n / 0x100 % 0x100, n % 0x100]
  }

  /** Reads a text without padding, four characters to three bytes; a shorter end leaves the low bytes out. */
  function DecodeRaw(text: Bytes, a: Alphabet): Option<Bytes> {
    if text == [] then Some([])
    else if |text| == 1 then None
    else
      var w, x := ValueOf(text[0], a, 0), ValueOf(text[1], a, 0);
      var y := if |text| > 2 then ValueOf(text[2], a, 0) else 0;
      var z := if |text| > 3 then ValueOf(text[3], a, 0) else 0;
      if w < 0 || x < 0 || y < 0 || z < 0 then None
      else
        var bytes := ThreeBytes(Joined(w, x, y, z));
        if |text| < 4 then Some(bytes[..|text| - 1])
        else
          match DecodeRaw(text[4..], a)
          case None => None
          case Some(rest) => Some(bytes + rest)
  }

  /** The text without one or two pad characters at its end. */
  function Unpadded(text: Bytes): Bytes {
    if |text| >= 2 && text[|text| - 2] == '=' as int && text[|text| - 1] == '=' as int then text[..|text| - 2]
    else if |text| >= 1 && text[|text| - 1] == '=' as int then text[..|text| - 1]
    else text
  }

  function Decode(text: Bytes, a: Alphabet): Option<Bytes> {
    DecodeRaw(Unpadded(text), a)
  }

  /** No character stands in the table twice. */
  lemma {:induction false} ValueOfChar(v: int, a: Alphabet, i: nat)
    requires i <= v < 64
    ensures ValueOf(Char(v, a), a, i) == v
    decreases v - i
  {
    hide Table;
    CharsAreTabled(i, a);
    CharsDiffer(i, v, a);
    if i < v {
      ValueOfChar(v, a, i + 1);
    }
  }

  lemma CharsDiffer(v: int, w: int, a: Alphabet)
    requires 0 <= v < 64 && 0 <= w < 64
    ensures Char(v, a) == Char(w, a) ==> v == w
  {
  }

  /** Splitting three bytes into four numbers of six bits and joining those again changes nothing. */
  lemma Rejoined(x: Byte, y: Byte, z: Byte)
    ensures Joined(x / 4, x % 4 * 16 + y / 16, y % 16 * 4 + z / 64, z % 64) == 0x10000 * x + 0x100 * y + z
  {
  }

  lemma Resplit(x: Byte, y: Byte, z: Byte)
    ensures ThreeBytes(0x10000 * x + 0x100 * y + z) == [x, y, z]
  {
    var n := 0x10000 * x + 0x100 * y + z;
    assert n / 0x100 == 0x100 * x + y && n % 0x100 == z;
  }

  lemma ValuesOfGroup(x: Byte, y: Byte, z: Byte, a: Alphabet)
    ensures ValueOf(Char(x / 4, a), a, 0) == x / 4
    ensures ValueOf(Char(x % 4 * 16 + y / 16, a), a, 0) == x % 4 * 16 + y / 16
    ensures ValueOf(Char(y % 16 * 4 + z / 64, a), a, 0) == y % 16 * 4 + z / 64
    ensures ValueOf(Char(z % 64, a), a, 0) == z % 64
  {
    hide Char, ValueOf;
    ValueOfChar(x / 4, a, 0);
    ValueOfChar(x % 4 * 16 + y / 16, a, 0);
    ValueOfChar(y % 16 * 4 + z / 64, a, 0);
    ValueOfChar(z % 64, a, 0);
  }

  lemma GroupDecodes(x: Byte, y: Byte, z: Byte, a: Alphabet, n: nat, rest: Bytes)
    requires 2 <= n <= 4 && (n < 4 ==> z == 0 && rest == []) && (n < 3 ==> y == 0)
    ensures DecodeRaw(Group(x, y, z, a)[..n] + rest, a) ==
              if n < 4 then Some([x, y, z][..n - 1])
              else match DecodeRaw(rest, a)
                   case None => None
                   case Some(bytes) => Some([x, y, z] + bytes)
  {
    hide Char, ValueOf, Joined, ThreeBytes, Table;
    ValuesOfGroup(x, y, z, a);
    Rejoined(x, y, z);
    Resplit(x, y, z);
    var text := Group(x, y, z, a)[..n] + rest;
    if n == 4 {
      assert text[4..] == rest;
    }
  }

  function Rest(data: Bytes): Bytes {
    if |data| > 3 then data[3..] else []
  }

  lemma EncodeStep(data: Bytes, a: Alphabet)
    requires data != []
    ensures Encode(data, a, false)
         == Group(data[0], At(data, 1), At(data, 2), a)[..Min(|data| + 1, 4)] + Encode(Rest(data), a, false)
  {
    hide Char;
  }

  lemma FirstBytes(data: Bytes)
    requires data != []
    ensures data == [data[0], At(data, 1), At(data, 2)][..Min(|data| + 1, 4) - 1] + Rest(data)
  {
  }

  lemma {:induction false} RawDecodes(data: Bytes, a: Alphabet)
    ensures DecodeRaw(Encode(data, a, false), a) == Some(data)
    decreases |data|
  {
    if data != [] {
      hide DecodeRaw, Encode, Group;
      var n := Min(|data| + 1, 4);
      EncodeStep(data, a);
      FirstBytes(data);
      EncodeNothing(a);
      GroupDecodes(data[0], At(data, 1), At(data, 2), a, n, Encode(Rest(data), a, false));
      RawDecodes(Rest(data), a);
      Whole([data[0], At(data, 1), At(data, 2)]);
    }
  }

  lemma Whole(bytes: Bytes)
    ensures bytes[..|bytes|] == bytes
    ensures bytes + [] == bytes && forall n: nat :: n <= |bytes| ==> bytes[..n] + [] == bytes[..n]
  {
  }

  lemma EncodeNothing(a: Alphabet)
    ensures Encode([], a, false) == []
  {
  }

  /** Nothing is lost: reading the text of data by the table gives the data back, with padding or without. */
  lemma DecodeUndoesEncode(data: Bytes, a: Alphabet, padded: bool)
    ensures Decode(Encode(data, a, padded), a) == Some(data)
  {
    hide Encode, DecodeRaw;
    var raw, text := Encode(data, a, false), Encode(data, a, padded);
    var pads := PaddedAtEnd(data, a);
    RawDecodes(data, a);
    RawHasNoPad(data, a);
    assert Unpadded(raw) == raw;
    assert |pads| <= 2;
    assert Unpadded(raw + pads) == raw;
  }
}
