/** Which values a run registers for redaction (internal/runner/runner.go). */
module Registration {
  import opened ByteStrings
  import opened Base64
  import opened Encodings
  import opened EncodingForms

  const MIN_REDACTABLE_SECRET_LEN: nat := 4
  const MIN_ENCODABLE_SECRET_LEN: nat := 8

  /** The encodings registered beside a value: none for a short one. */
  function EncodingsOf(v: Bytes, esc: Escapers): seq<Bytes> {
    if |v| < MIN_ENCODABLE_SECRET_LEN then [] else Fresh(AllForms(v, 2, esc), MIN_ENCODABLE_SECRET_LEN, {v})
  }

  /** What becomes registered for a list of values: each one that is not too short, and its encodings. */
  ghost predicate IsRegistered(s: Bytes, values: seq<Bytes>, esc: Escapers) {
    exists v :: v in values && |v| >= MIN_REDACTABLE_SECRET_LEN && (s == v || s in EncodingsOf(v, esc))
  }

  method Append(known: seq<Bytes>, v: Bytes, esc: Escapers) returns (more: seq<Bytes>)
    requires |v| >= MIN_REDACTABLE_SECRET_LEN
    ensures forall s :: s in more <==> s in known || s == v || s in EncodingsOf(v, esc)
  {
    more := known + [v];
    if |v| >= MIN_ENCODABLE_SECRET_LEN {
      var encodings := EncodingsWithDepth(v, MIN_ENCODABLE_SECRET_LEN, 2, esc);
      more := more + encodings;
    }
  }

  /** Registers the secrets of a run, in whatever order they come, and the further values to redact. */
  method RegisterSecrets(secrets: seq<Bytes>, redactValues: seq<Bytes>, esc: Escapers) returns (registered: seq<Bytes>)
    ensures forall s :: s in registered <==> IsRegistered(s, secrets + redactValues, esc)
  {
    hide EncodingsOf;
    registered := [];
    for i := 0 to |secrets|
      invariant forall s :: s in registered <==> IsRegistered(s, secrets[..i], esc)
    {
      var v := secrets[i];
      Extend(secrets, i, esc);
      if v == [] || |v| < MIN_REDACTABLE_SECRET_LEN {
        continue;
      }
      registered := Append(registered, v, esc);
    }
    assert secrets[..|secrets|] == secrets;
    for i := 0 to |redactValues|
      invariant forall s :: s in registered <==> IsRegistered(s, secrets + redactValues[..i], esc)
    {
      var v := redactValues[i];
      assert (secrets + redactValues)[..|secrets| + i] == secrets + redactValues[..i];
      assert (secrets + redactValues)[..|secrets| + i + 1] == secrets + redactValues[..i + 1];
      Extend(secrets + redactValues, |secrets| + i, esc);
      if |v| >= MIN_REDACTABLE_SECRET_LEN {
        registered := Append(registered, v, esc);
      }
    }
    assert redactValues[..|redactValues|] == redactValues;
  }

  lemma Extend(values: seq<Bytes>, i: nat, esc: Escapers)
    requires i < |values|
    ensures forall s :: IsRegistered(s, values[..i + 1], esc) <==>
              || IsRegistered(s, values[..i], esc)
              || (|values[i]| >= MIN_REDACTABLE_SECRET_LEN && (s == values[i] || s in EncodingsOf(values[i], esc)))
  {
    hide EncodingsOf;
    assert values[..i + 1] == values[..i] + [values[i]];
  }

  /** Every core of a long enough value is among what is registered, for every alignment and alphabet. */
  lemma CoresOfValues(values: seq<Bytes>, esc: Escapers, v: Bytes, k: nat, a: Alphabet)
    requires v in values && |v| >= MIN_ENCODABLE_SECRET_LEN && k < 3
    ensures IsRegistered(Core(v, k, a), values, esc)
  {
    CoresAreRegistered(v, MIN_ENCODABLE_SECRET_LEN, 2, esc, k, a);
  }

  /** Nothing that is registered is empty or shorter than a redactable secret. */
  lemma NothingShort(s: Bytes, values: seq<Bytes>, esc: Escapers)
    requires IsRegistered(s, values, esc)
    ensures |s| >= MIN_REDACTABLE_SECRET_LEN
  {
    var v :| v in values && |v| >= MIN_REDACTABLE_SECRET_LEN && (s == v || s in EncodingsOf(v, esc));
    if |v| >= MIN_ENCODABLE_SECRET_LEN {
      FreshIsComplete(AllForms(v, 2, esc), MIN_ENCODABLE_SECRET_LEN, {v});
    }
  }

  /**
   Registered are the values of four bytes and more, and those encoded forms of eight bytes and more
   that belong to values of eight bytes and more.
   */
  lemma RegisteredMeans(s: Bytes, values: seq<Bytes>, esc: Escapers)
    ensures IsRegistered(s, values, esc)
       <==> exists v :: v in values && |v| >= 4 && (s == v || (|v| >= 8 && |s| >= 8 && IsForm(v, s, 2, esc)))
  {
    hide IsForm, Fresh, AllForms;
    forall v | v in values && |v| >= 8
      ensures s in EncodingsOf(v, esc) <==> IsForm(v, s, 2, esc) && |s| >= 8 && s != v
    {
      RegisteredFormsMean(v, 8, 2, esc, s);
    }
  }
}
