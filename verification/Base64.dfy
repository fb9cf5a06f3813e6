/** Base64 (sections 4 and 5 of RFC 4648), and the part of a base64 text that depends only on a secret. */
module Base64 {
  import opened ByteStrings

  // ----- The encoding, group by group -----

  /** The alphabets of section 4 and of section 5 (URL and filename safe). */
  datatype Alphabet = Std | Url

  const PAD: Byte := 61

  function Char(v: int, a: Alphabet): (c: Byte)
    requires 0 <= v < 64
    ensures c != PAD && 0x20 < c < 0x7F && c != 0x5B && c != 0x5D
  {
    if v < 26 then 65 + v
    else if v < 52 then 71 + v
    else if v < 62 then v - 4
    else if v == 62 then (if a == Std then 43 else 45)
    else (if a == Std then 47 else 95)
  }

  /** The base64 text of data; without padding it is the raw form. */
  function Encode(data: Bytes, a: Alphabet, padded: bool): Bytes {
    if |data| == 0 then []
    else if |data| == 1 then
      [Char(data[0] / 4, a), Char(data[0] % 4 * 16, a)] + if padded then [PAD, PAD] else []
    else if |data| == 2 then
      [Char(data[0] / 4, a), Char(data[0] % 4 * 16 + data[1] / 16, a), Char(data[1] % 16 * 4, a)]
      + if padded then [PAD] else []
    else
      Group(data[0], data[1], data[2], a) + Encode(data[3..], a, padded)
  }

  function Group(x: Byte, y: Byte, z: Byte, a: Alphabet): (text: Bytes)
    ensures |text| == 4
  {
    [Char(x / 4, a), Char(x % 4 * 16 + y / 16, a), Char(y % 16 * 4 + z / 64, a), Char(z % 64, a)]
  }

  /** The number of characters that carry bits of n bytes. */
  function DataChars(n: nat): nat {
    (8 * n + 5) / 6
  }

  // ----- The encoding, bit by bit -----

  // Groups of six and of eight bits both start at even bits, so the bits are taken in pairs.

  /** Bit pair i of the data, the most significant pair of each byte first; zero after the end. */
  function Pair(data: Bytes, i: nat): (v: int)
    ensures 0 <= v < 4
  {
    if i / 4 < |data| then BytePair(data[i / 4], i % 4) else 0
  }

  function BytePair(b: Byte, k: nat): (v: int)
    requires k < 4
    ensures 0 <= v < 4
  {
    if k == 0 then b / 64 else if k == 1 then b / 16 % 4 else if k == 2 then b / 4 % 4 else b % 4
  }

  /** Six consecutive bits, from bit 6 * t on, as a number. */
  function Sextet(data: Bytes, t: nat): (v: int)
    ensures 0 <= v < 64
  {
    16 * Pair(data, 3 * t) + 4 * Pair(data, 3 * t + 1) + Pair(data, 3 * t + 2)
  }

  lemma BytesFromPairs(b: Byte)
    ensures b / 4 == 16 * BytePair(b, 0) + 4 * BytePair(b, 1) + BytePair(b, 2)
    ensures b % 4 == BytePair(b, 3)
    ensures b / 64 == BytePair(b, 0)
    ensures b / 16 == 4 * BytePair(b, 0) + BytePair(b, 1)
    ensures b % 16 == 4 * BytePair(b, 2) + BytePair(b, 3)
    ensures b % 64 == 16 * BytePair(b, 1) + 4 * BytePair(b, 2) + BytePair(b, 3)
  {
  }

  /** The byte at index i, zero after the end. */
  function At(data: Bytes, i: nat): Byte {
    if i < |data| then data[i] else 0
  }

  lemma PairsOfByte(data: Bytes, i: nat)
    ensures Pair(data, 4 * i) == BytePair(At(data, i), 0)
    ensures Pair(data, 4 * i + 1) == BytePair(At(data, i), 1)
    ensures Pair(data, 4 * i + 2) == BytePair(At(data, i), 2)
    ensures Pair(data, 4 * i + 3) == BytePair(At(data, i), 3)
  {
  }

  /** The first four sextets of some data in terms of its first three bytes. */
  lemma FirstSextets(data: Bytes)
    requires data != []
    ensures Sextet(data, 0) == At(data, 0) / 4
    ensures Sextet(data, 1) == At(data, 0) % 4 * 16 + At(data, 1) / 16
    ensures Sextet(data, 2) == At(data, 1) % 16 * 4 + At(data, 2) / 64
    ensures Sextet(data, 3) == At(data, 2) % 64
  {
    BytesFromPairs(At(data, 0));
    BytesFromPairs(At(data, 1));
    BytesFromPairs(At(data, 2));
    PairsOfByte(data, 0);
    PairsOfByte(data, 1);
    PairsOfByte(data, 2);
    hide Pair, BytePair, At;
  }

  /** Bit pairs q bytes further on, when the text in between agrees. */
  lemma PairsShift(data: Bytes, other: Bytes, q: nat, i: nat)
    requires i / 4 < |other| ==> 3 * q + i / 4 < |data| && data[3 * q + i / 4] == other[i / 4]
    requires i / 4 >= |other| ==> 3 * q + i / 4 >= |data|
    ensures Pair(data, 12 * q + i) == Pair(other, i)
  {
    assert (12 * q + i) / 4 == 3 * q + i / 4 && (12 * q + i) % 4 == i % 4;
  }

  /** A sextet taken after whole groups of three bytes is a sextet of the rest. */
  lemma SextetsShift(data: Bytes, t: nat)
    requires |data| >= 3
    ensures Sextet(data, 4 + t) == Sextet(data[3..], t)
  {
    PairsShift(data, data[3..], 1, 3 * t);
    PairsShift(data, data[3..], 1, 3 * t + 1);
    PairsShift(data, data[3..], 1, 3 * t + 2);
  }

  /** The encoder writes the sextets of the data: the bit-level reading of RFC 4648. */
  lemma {:induction false} EncodeReadsSextets(data: Bytes, a: Alphabet, padded: bool, t: nat)
    requires t < DataChars(|data|)
    ensures t < |Encode(data, a, padded)|
    ensures Encode(data, a, padded)[t] == Char(Sextet(data, t), a)
    decreases |data|
  {
    hide Char, Sextet;
    if t < 4 {
      FirstSextets(data);
    } else {
      EncodeReadsSextets(data[3..], a, padded, t - 4);
      SextetsShift(data, t - 4);
    }
  }

  lemma {:induction false} EncodedLength(data: Bytes, a: Alphabet, padded: bool)
    ensures |Encode(data, a, padded)| == if padded then (|data| + 2) / 3 * 4 else DataChars(|data|)
    decreases |data|
  {
    if |data| >= 3 {
      EncodedLength(data[3..], a, padded);
    }
  }

  /** Padding only adds pad characters at the end. */
  lemma {:induction false} PaddedAtEnd(data: Bytes, a: Alphabet) returns (pads: Bytes)
    ensures Encode(data, a, true) == Encode(data, a, false) + pads
    ensures |pads| == (3 - |data| % 3) % 3 && pads == seq(|pads|, _ => PAD)
    decreases |data|
  {
    hide Char;
    if |data| < 3 {
      pads := Encode(data, a, true)[|Encode(data, a, false)|..];
    } else {
      pads := PaddedAtEnd(data[3..], a);
      Associate(Group(data[0], data[1], data[2], a), Encode(data[3..], a, false), pads);
    }
  }

  lemma {:induction false} RawHasNoPad(data: Bytes, a: Alphabet)
    ensures PAD !in Encode(data, a, false)
    decreases |data|
  {
    if |data| >= 3 {
      RawHasNoPad(data[3..], a);
    }
  }

  /** Printable ASCII without spaces and brackets. */
  predicate Printable(text: Bytes) {
    forall i :: 0 <= i < |text| ==> 0x20 < text[i] < 0x7F && text[i] != 0x5B && text[i] != 0x5D
  }

  lemma {:induction false} EncodedIsPrintable(data: Bytes, a: Alphabet, padded: bool)
    ensures Printable(Encode(data, a, padded))
    decreases |data|
  {
    if |data| >= 3 {
      EncodedIsPrintable(data[3..], a, padded);
    }
  }

  // ----- Cores -----

  function CoreStart(k: nat): nat {
    (8 * k + 5) / 6
  }

  function CoreEnd(k: nat, n: nat): nat {
    8 * (k + n) / 6
  }

  /** The core's characters are those whose six bits all belong to the n bytes after the first k. */
  lemma CoreIsWhole(k: nat, n: nat, t: nat)
    ensures CoreStart(k) <= t < CoreEnd(k, n) <==> 8 * k <= 6 * t && 6 * t + 6 <= 8 * (k + n)
  {
  }

  function Zeros(k: nat): (z: Bytes)
    ensures |z| == k
  {
    seq(k, _ => 0)
  }

  /** The slice of the core lies within the raw encoding, provided the secret is not empty. */
  lemma CoreInRange(secret: Bytes, k: nat, a: Alphabet)
    requires k < 3
    ensures CoreEnd(k, |secret|) <= |Encode(Zeros(k) + secret, a, false)|
    ensures CoreStart(k) <= CoreEnd(k, |secret|) <==> k == 0 || secret != []
  {
    EncodedLength(Zeros(k) + secret, a, false);
  }

  /** The characters of base64 text that all come from a secret which follows k bytes (modulo 3). */
  function Core(secret: Bytes, k: nat, a: Alphabet): (core: Bytes)
    requires k < 3 && secret != []
    ensures |core| == CoreEnd(k, |secret|) - CoreStart(k)
    ensures |secret| >= 8 ==> |core| >= 8
  {
    CoreInRange(secret, k, a);
    Encode(Zeros(k) + secret, a, false)[CoreStart(k)..CoreEnd(k, |secret|)]
  }

  /** Which sextets of a message belong to a secret: those made of its bits alone. */
  lemma SecretSextet(prefix: Bytes, secret: Bytes, suffix: Bytes, k: nat, q: nat, t: nat)
    requires |prefix| == 3 * q + k
    requires CoreStart(k) <= t < CoreEnd(k, |secret|)
    ensures Sextet(prefix + secret + suffix, 4 * q + t) == Sextet(Zeros(k) + secret, t)
  {
    var message, own := prefix + secret + suffix, Zeros(k) + secret;
    assert 4 * k <= 3 * t && 3 * t + 2 < 4 * (k + |secret|);
    forall i: nat | k <= i < k + |secret|
      ensures message[3 * q + i] == own[i]
    {
    }
    PairsShift(message, own, q, 3 * t);
    PairsShift(message, own, q, 3 * t + 1);
    PairsShift(message, own, q, 3 * t + 2);
    assert 12 * q + 3 * t == 3 * (4 * q + t);
  }

  /** Where the core of the secret stands in the text of the message. */
  function CoreOffset(prefixLen: nat): nat {
    4 * (prefixLen / 3) + CoreStart(prefixLen % 3)
  }

  lemma CoreFits(p: nat, n: nat, s: nat, k: nat, q: nat)
    requires n > 0 && k < 3 && p == 3 * q + k
    ensures 4 * q + CoreEnd(k, n) <= DataChars(p + n + s) <= (p + n + s + 2) / 3 * 4
    ensures CoreStart(k) <= CoreEnd(k, n) <= DataChars(k + n)
  {
  }

  /** A character of the text of a message, at a place where only bits of the secret are read. */
  lemma CoreChar(prefix: Bytes, secret: Bytes, suffix: Bytes, a: Alphabet, padded: bool, k: nat, q: nat, t: nat)
    requires secret != [] && k < 3 && |prefix| == 3 * q + k
    requires CoreStart(k) <= t < CoreEnd(k, |secret|)
    ensures 4 * q + t < |Encode(prefix + secret + suffix, a, padded)| && t < |Encode(Zeros(k) + secret, a, false)|
    ensures Encode(prefix + secret + suffix, a, padded)[4 * q + t] == Encode(Zeros(k) + secret, a, false)[t]
  {
    CoreFits(|prefix|, |secret|, |suffix|, k, q);
    hide Encode, Sextet, Char, DataChars, CoreStart, CoreEnd;
    EncodeReadsSextets(prefix + secret + suffix, a, padded, 4 * q + t);
    EncodeReadsSextets(Zeros(k) + secret, a, false, t);
    SecretSextet(prefix, secret, suffix, k, q, t);
  }

  lemma AlignedSlice(prefix: Bytes, secret: Bytes, suffix: Bytes, a: Alphabet, padded: bool, k: nat, q: nat)
    requires secret != [] && k < 3 && |prefix| == 3 * q + k
    ensures OccursAt(Core(secret, k, a), Encode(prefix + secret + suffix, a, padded), 4 * q + CoreStart(k))
  {
    hide Encode;
    var text, own := Encode(prefix + secret + suffix, a, padded), Encode(Zeros(k) + secret, a, false);
    CoreFits(|prefix|, |secret|, |suffix|, k, q);
    EncodedLength(prefix + secret + suffix, a, padded);
    EncodedLength(Zeros(k) + secret, a, false);
    forall t: nat | CoreStart(k) <= t < CoreEnd(k, |secret|)
      ensures text[4 * q + t] == own[t]
    {
      CoreChar(prefix, secret, suffix, a, padded, k, q, t);
    }
    SlicesAgree(text, own, 4 * q, CoreStart(k), CoreEnd(k, |secret|));
  }

  lemma SlicesAgree(text: Bytes, own: Bytes, x: nat, start: nat, end: nat)
    requires x + end <= |text| && start <= end <= |own|
    requires forall t: nat :: start <= t < end ==> text[x + t] == own[t]
    ensures text[x + start..x + end] == own[start..end]
  {
    forall j | 0 <= j < end - start
      ensures text[x + start..x + end][j] == own[start..end][j]
    {
      assert text[x + (start + j)] == own[start + j];
    }
  }

  /**
   Whatever surrounds a secret, the base64 text of the whole contains the secret's core for its
   alignment, at an offset that depends only on the length of what precedes it.
   */
  lemma CoreIsAligned(prefix: Bytes, secret: Bytes, suffix: Bytes, a: Alphabet, padded: bool)
    requires secret != []
    ensures OccursAt(Core(secret, |prefix| % 3, a), Encode(prefix + secret + suffix, a, padded), CoreOffset(|prefix|))
  {
    var k, q := |prefix| % 3, |prefix| / 3;
    assert CoreOffset(|prefix|) == 4 * q + CoreStart(k);
    hide OccursAt, Core, Encode;
    AlignedSlice(prefix, secret, suffix, a, padded, k, q);
  }
}
