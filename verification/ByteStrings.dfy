/** Byte strings: the values that Go calls []byte and string in the modelled packages. */
module ByteStrings {

  type Byte = b: int | 0 <= b < 256

  type Bytes = seq<Byte>

  /** The bytes of an ASCII literal; characters above 255 do not occur in the sources. */
  function Ascii(text: string): (bytes: Bytes)
    ensures |bytes| == |text|
  {
    seq(|text|, i requires 0 <= i < |text| => (text[i] as int) % 256)
  }

  function Min(a: int, b: int): (m: int)
    ensures m == a || m == b
    ensures m <= a && m <= b
  {
    if a <= b then a else b
  }

  function Max(a: int, b: int): (m: int)
    ensures m == a || m == b
    ensures m >= a && m >= b
  {
    if a >= b then a else b
  }

  /** The pieces joined without a separator. */
  function Concat(pieces: seq<Bytes>): Bytes {
    if pieces == [] then [] else pieces[0] + Concat(pieces[1..])
  }

  /** needle occurs in text starting at index at. */
  predicate OccursAt(needle: Bytes, text: Bytes, at: nat) {
    at + |needle| <= |text| && text[at..at + |needle|] == needle
  }

  ghost predicate Occurs(needle: Bytes, text: Bytes) {
    exists at: nat :: OccursAt(needle, text, at)
  }

  lemma OccursWithin(needle: Bytes, text: Bytes, at: nat, pre: Bytes, post: Bytes)
    requires OccursAt(needle, text, at)
    ensures OccursAt(needle, pre + text + post, |pre| + at)
  {
    assert (pre + text + post)[|pre| + at..|pre| + at + |needle|] == text[at..at + |needle|];
  }

  lemma ConcatSplit<T>(a: seq<T>, b: seq<T>, n: nat)
    requires n <= |a|
    ensures (a + b)[..n] == a[..n]
    ensures (a + b)[n..] == a[n..] + b
  {
  }

  lemma Associate<T>(a: seq<T>, b: seq<T>, c: seq<T>)
    ensures (a + b) + c == a + (b + c)
  {
  }

  lemma MoveAcross<T>(a: seq<T>, b: seq<T>, n: nat)
    requires n <= |b|
    ensures a + b == (a + b[..n]) + b[n..]
  {
  }

  lemma {:induction false} ConcatSnoc(pieces: seq<Bytes>, last: Bytes)
    ensures Concat(pieces + [last]) == Concat(pieces) + last
  {
    if pieces == [] {
      assert [last][1..] == [];
    } else {
      ConcatSnoc(pieces[1..], last);
      assert (pieces + [last])[1..] == pieces[1..] + [last];
    }
  }
}
