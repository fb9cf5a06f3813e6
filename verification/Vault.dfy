/** The encrypted vault of a project (internal/vault/store.go), over abstract cryptography. */
module Vault {
  import opened ByteStrings
  import opened Names
  import opened Options

  /** A scope in the clear: texts and opaque files, by name. */
  datatype Payload = Payload(values: map<string, Bytes>, blobs: map<string, Bytes>)

  const NOTHING: Payload := Payload(map[], map[])

  /** The vault file. */
  datatype Document<S, M> = Document(revision: nat, updatedAt: int, scopes: map<string, S>, mac: M)

  /** text is what JSON makes of a byte string: invalid UTF-8 is replaced. A nonce stands for fresh randomness. */
  datatype Crypto<!S, !M> = Crypto(
    text: Bytes -> Bytes,
    seal: (string, Payload, int) -> S,
    open: (string, S) -> Option<Payload>,
    mac: (nat, int, map<string, S>) -> M)

  function AsText<S, M>(c: Crypto<S, M>, p: Payload): Payload {
    Payload(map k | k in p.values :: c.text(p.values[k]), p.blobs)
  }

  predicate Clean<S, M>(c: Crypto<S, M>, p: Payload) {
    forall k :: k in p.values ==> c.text(p.values[k]) == p.values[k]
  }

  /** Opening undoes sealing; whatever opens was JSON. */
  ghost predicate Sound<S(!new), M(!new)>(c: Crypto<S, M>) {
    && (forall scope, p, nonce :: c.open(scope, c.seal(scope, p, nonce)) == Some(AsText(c, p)))
    && (forall scope, sealed :: c.open(scope, sealed).Some? ==> Clean(c, c.open(scope, sealed).value))
    && (forall v :: c.text(c.text(v)) == c.text(v))
  }

  predicate Authentic<S, M(==)>(c: Crypto<S, M>, doc: Document<S, M>) {
    doc.mac == c.mac(doc.revision, doc.updatedAt, doc.scopes)
  }

  // ----- What the vault holds -----

  datatype Slot = Broken | Holds(payload: Payload)

  type Contents = map<string, Slot>

  function OpenSlot<S, M>(c: Crypto<S, M>, scope: string, sealed: S): Slot {
    match c.open(scope, sealed)
    case Some(p) => Holds(p)
    case None => Broken
  }

  ghost function Opened<S, M>(c: Crypto<S, M>, scopes: map<string, S>): Contents {
    map scope | scope in scopes :: OpenSlot(c, scope, scopes[scope])
  }

  datatype Error = Invalid | Missing | Integrity | Unauthentic | Older | Conflicting

  datatype Result<+T> = Ok(value: T) | Err(error: Error)

  function PayloadIn(contents: Contents, scope: string): Result<Payload> {
    if scope !in contents then Err(Missing)
    else if contents[scope].Broken? then Err(Integrity)
    else Ok(contents[scope].payload)
  }

  function Without(p: Payload, key: string): Payload {
    Payload(p.values - {key}, p.blobs - {key})
  }

  function WithText(p: Payload, key: string, text: Bytes): Payload {
    Payload(p.values[key := text], p.blobs - {key})
  }

  function WithBlob(p: Payload, key: string, blob: Bytes): Payload {
    Payload(p.values - {key}, p.blobs[key := blob])
  }

  /** The contents after storing a text (blob == false) or a file, if that succeeds. */
  function Stored<S, M>(c: Crypto<S, M>, contents: Contents, scope: string, key: string, value: Bytes,
      blob: bool): Result<Contents> {
    if !Storable(scope) || !Storable(key) then Err(Invalid)
    else
      match PayloadIn(contents, scope)
      case Err(Integrity) => Err(Integrity)
      case other =>
        var p := if other.Ok? then other.value else NOTHING;
        Ok(contents[scope := Holds(if blob then WithBlob(p, key, value) else WithText(p, key, c.text(value)))])
  }

  /** The contents after deleting a key; a scope without keys goes too. */
  function Deleted(contents: Contents, scope: string, key: string): Result<Contents> {
    if !Storable(scope) || !Storable(key) then Err(Invalid)
    else
      match PayloadIn(contents, scope)
      case Err(Missing) => Ok(contents)
      case Err(e) => Err(e)
      case Ok(p) =>
        if key !in p.values && key !in p.blobs then Ok(contents)
        else if Without(p, key) == NOTHING then Ok(contents - {scope})
        else Ok(contents[scope := Holds(Without(p, key))])
  }

  function Text(contents: Contents, scope: string, key: string): Result<Bytes> {
    if !Storable(scope) || !Storable(key) then Err(Invalid)
    else
      match PayloadIn(contents, scope)
      case Err(e) => Err(e)
      case Ok(p) => if key in p.values then Ok(p.values[key]) else Err(Missing)
  }

  function Blob(contents: Contents, scope: string, key: string): Result<Bytes> {
    if !Storable(scope) || !Storable(key) then Err(Invalid)
    else
      match PayloadIn(contents, scope)
      case Err(e) => Err(e)
      case Ok(p) =>
        if key in p.blobs then Ok(p.blobs[key]) else if key in p.values then Ok(p.values[key]) else Err(Missing)
  }

  /** What was stored is what is read back: files exactly, texts as JSON has them. */
  lemma StoredIsRead<S, M>(c: Crypto<S, M>, contents: Contents, scope: string, key: string, value: Bytes, blob: bool)
    requires Stored(c, contents, scope, key, value, blob).Ok?
    ensures var after := Stored(c, contents, scope, key, value, blob).value;
            && Blob(after, scope, key) == Ok(if blob then value else c.text(value))
            && Text(after, scope, key) == if blob then Err(Missing) else Ok(c.text(value))
    ensures var after := Stored(c, contents, scope, key, value, blob).value;
            forall s, k :: s != scope || k != key ==>
                Text(after, s, k) == Text(contents, s, k) && Blob(after, s, k) == Blob(contents, s, k)
  {
  }

  /** A deleted key is missing, and nothing else changes. */
  lemma DeletedIsMissing(contents: Contents, scope: string, key: string)
    requires Deleted(contents, scope, key).Ok?
    ensures var after := Deleted(contents, scope, key).value;
            Blob(after, scope, key) == Err(Missing) && Text(after, scope, key) == Err(Missing)
    ensures var after := Deleted(contents, scope, key).value;
            forall s, k :: s != scope || k != key ==>
                Text(after, s, k) == Text(contents, s, k) && Blob(after, s, k) == Blob(contents, s, k)
  {
    var after := Deleted(contents, scope, key).value;
    forall s, k | s != scope || k != key
      ensures Text(after, s, k) == Text(contents, s, k) && Blob(after, s, k) == Blob(contents, s, k)
    {
      if s == scope && s in contents && contents[s].Holds? && Without(contents[s].payload, key) == NOTHING {
        assert k !in Without(contents[s].payload, key).values && k !in Without(contents[s].payload, key).blobs;
      }
    }
  }

  lemma SealingIsStoring<S(!new), M(!new)>(c: Crypto<S, M>, scopes: map<string, S>, scope: string, p: Payload,
      nonce: int)
    requires Sound(c)
    ensures Opened(c, scopes[scope := c.seal(scope, p, nonce)]) == Opened(c, scopes)[scope := Holds(AsText(c, p))]
  {
    hide AsText, Clean;
  }

  lemma TextsOf<S, M>(c: Crypto<S, M>, p: Payload, key: string, value: Bytes)
    requires Clean(c, p)
    ensures AsText(c, Payload(p.values[key := value], p.blobs - {key})) == WithText(p, key, c.text(value))
    ensures AsText(c, Payload(p.values - {key}, p.blobs[key := value])) == WithBlob(p, key, value)
    ensures AsText(c, Without(p, key)) == Without(p, key)
  {
    assert AsText(c, Payload(p.values[key := value], p.blobs - {key})).values == p.values[key := c.text(value)];
    assert AsText(c, Payload(p.values - {key}, p.blobs[key := value])).values == p.values - {key};
    assert AsText(c, Without(p, key)).values == p.values - {key};
  }

  lemma NothingIsClean<S, M>(c: Crypto<S, M>)
    ensures Clean(c, NOTHING)
  {
  }

  // ----- The store -----

  class Store<S(!new), M(==, !new)> {
    const crypto: Crypto<S, M>
    var file: Option<Document<S, M>>

    ghost predicate Valid()
      reads this
    {
      Sound(crypto) && (file.Some? ==> Authentic(crypto, file.value))
    }

    function Revision(): nat
      reads this
    {
      if file.Some? then file.value.revision else 0
    }

    function Scopes(): map<string, S>
      reads this
    {
      if file.Some? then file.value.scopes else map[]
    }

    ghost function Contents(): Contents
      reads this
    {
      Opened(crypto, Scopes())
    }

    constructor (crypto: Crypto<S, M>)
      requires Sound(crypto)
      ensures Valid() && this.crypto == crypto && Contents() == map[] && Revision() == 0
    {
      this.crypto := crypto;
      file := None;
    }

    method OpenScope(scope: string) returns (r: Result<Payload>)
      requires Valid()
      ensures r == PayloadIn(Contents(), scope)
      ensures r.Ok? ==> Clean(crypto, r.value)
    {
      if scope !in Scopes() {
        return Err(Missing);
      }
      match crypto.open(scope, Scopes()[scope])
      case Some(p) => return Ok(p);
      case None => return Err(Integrity);
    }

    /** Commits new scopes as the next revision. */
    method Save(scopes: map<string, S>, now: int)
      requires Valid()
      modifies this
      ensures Valid() && Scopes() == scopes && Revision() == old(Revision()) + 1
    {
      var revision := Revision() + 1;
      file := Some(Document(revision, now, scopes, crypto.mac(revision, now, scopes)));
    }

    method Set(scope: string, key: string, value: Bytes, nonce: int, now: int) returns (error: Option<Error>)
      requires Valid()
      modifies this
      ensures Valid()
      ensures var r := Stored(crypto, old(Contents()), scope, key, value, false);
              if r.Ok? then error == None && Contents() == r.value && Revision() == old(Revision()) + 1
              else error == Some(r.error) && file == old(file)
    {
      hide Storable, AsText, Clean, Sound, Authentic, WithText;
      if !Storable(scope) || !Storable(key) {
        return Some(Invalid);
      }
      var slot := OpenScope(scope);
      if slot == Err(Integrity) {
        return Some(Integrity);
      }
      var p := if slot.Ok? then slot.value else NOTHING;
      var after := Payload(p.values[key := value], p.blobs - {key});
      NothingIsClean(crypto);
      TextsOf(crypto, p, key, value);
      SealingIsStoring(crypto, Scopes(), scope, after, nonce);
      Save(Scopes()[scope := crypto.seal(scope, after, nonce)], now);
      return None;
    }

    method SetBytes(scope: string, key: string, value: Bytes, nonce: int, now: int) returns (error: Option<Error>)
      requires Valid()
      modifies this
      ensures Valid()
      ensures var r := Stored(crypto, old(Contents()), scope, key, value, true);
              if r.Ok? then error == None && Contents() == r.value && Revision() == old(Revision()) + 1
              else error == Some(r.error) && file == old(file)
    {
      hide Storable, AsText, Clean, Sound, Authentic, WithBlob;
      if !Storable(scope) || !Storable(key) {
        return Some(Invalid);
      }
      var slot := OpenScope(scope);
      if slot == Err(Integrity) {
        return Some(Integrity);
      }
      var p := if slot.Ok? then slot.value else NOTHING;
      var after := Payload(p.values - {key}, p.blobs[key := value]);
      NothingIsClean(crypto);
      TextsOf(crypto, p, key, value);
      SealingIsStoring(crypto, Scopes(), scope, after, nonce);
      Save(Scopes()[scope := crypto.seal(scope, after, nonce)], now);
      return None;
    }

    method Get(scope: string, key: string) returns (r: Result<Bytes>)
      requires Valid()
      ensures r == Text(Contents(), scope, key)
    {
      if !Storable(scope) || !Storable(key) {
        return Err(Invalid);
      }
      var slot := OpenScope(scope);
      if slot.Err? {
        return Err(slot.error);
      }
      if key !in slot.value.values {
        return Err(Missing);
      }
      return Ok(slot.value.values[key]);
    }

    method GetBytes(scope: string, key: string) returns (r: Result<Bytes>)
      requires Valid()
      ensures r == Blob(Contents(), scope, key)
    {
      if !Storable(scope) || !Storable(key) {
        return Err(Invalid);
      }
      var slot := OpenScope(scope);
      if slot.Err? {
        return Err(slot.error);
      }
      if key in slot.value.blobs {
        return Ok(slot.value.blobs[key]);
      }
      if key in slot.value.values {
        return Ok(slot.value.values[key]);
      }
      return Err(Missing);
    }

    /** Deleting what is not there commits nothing. */
    method Delete(scope: string, key: string, nonce: int, now: int) returns (error: Option<Error>)
      requires Valid()
      modifies this
      ensures Valid()
      ensures var r := Deleted(old(Contents()), scope, key);
              if r.Ok? then error == None && Contents() == r.value else error == Some(r.error) && file == old(file)
      ensures if Contents() == old(Contents()) then file == old(file) else Revision() == old(Revision()) + 1
    {
      hide Storable, AsText, Clean, Sound, Authentic;
      if !Storable(scope) || !Storable(key) {
        return Some(Invalid);
      }
      var slot := OpenScope(scope);
      if slot == Err(Missing) {
        return None;
      }
      if slot.Err? {
        return Some(slot.error);
      }
      var p := slot.value;
      if key !in p.values && key !in p.blobs {
        return None;
      }
      var after := Payload(p.values - {key}, p.blobs - {key});
      assert after == Without(p, key) && after != p;
      TextsOf(crypto, p, key, []);
      SealingIsStoring(crypto, Scopes(), scope, after, nonce);
      if after.values == map[] && after.blobs == map[] {
        Save(Scopes() - {scope}, now);
      } else {
        Save(Scopes()[scope := crypto.seal(scope, after, nonce)], now);
      }
      return None;
    }

    method DeleteScope(scope: string, now: int) returns (error: Option<Error>)
      requires Valid()
      modifies this
      ensures Valid()
      ensures error == if Storable(scope) then None else Some(Invalid)
      ensures Contents() == if error == None then old(Contents()) - {scope} else old(Contents())
      ensures if Contents() == old(Contents()) then file == old(file) else Revision() == old(Revision()) + 1
    {
      if !Storable(scope) {
        return Some(Invalid);
      }
      if scope !in Scopes() {
        return None;
      }
      assert scope in Contents();
      Save(Scopes() - {scope}, now);
      return None;
    }

    /**
     Adopts a document from elsewhere when it authenticates and is newer. Every refusal leaves the vault
     alone, and when no two documents have the same MAC, success means that the vault now is the document.
     */
    method Replace(incoming: Document<S, M>) returns (error: Option<Error>)
      requires Valid()
      modifies this
      ensures Valid() && Revision() >= old(Revision())
      ensures error.Some? ==> file == old(file)
      ensures error == Some(Unauthentic) <==> !Authentic(crypto, incoming)
      ensures error == Some(Older) <==> Authentic(crypto, incoming) && incoming.revision < old(Revision())
      ensures error == None ==>
                && Authentic(crypto, incoming)
                && (file == Some(incoming)
                    || (file == old(file) && file.Some?
                        && file.value.revision == incoming.revision && file.value.mac == incoming.mac))
      ensures error == None && Injective(crypto) ==> file == Some(incoming)
      ensures Authentic(crypto, incoming) && incoming.revision > old(Revision()) ==>
                && error == None
                && file == Some(incoming)
    {
      if incoming.mac != crypto.mac(incoming.revision, incoming.updatedAt, incoming.scopes) {
        return Some(Unauthentic);
      }
      if incoming.revision < Revision() {
        return Some(Older);
      }
      if incoming.revision == Revision() {
        if file == None || file.value.mac != incoming.mac {
          return Some(Conflicting);
        }
        return None;
      }
      file := Some(incoming.(mac := crypto.mac(incoming.revision, incoming.updatedAt, incoming.scopes)));
      return None;
    }
  }

  ghost predicate Injective<S(!new), M(!new)>(c: Crypto<S, M>) {
    forall r, t, scopes, r', t', scopes' :: c.mac(r, t, scopes) == c.mac(r', t', scopes') ==>
        r == r' && t == t' && scopes == scopes'
  }
}
