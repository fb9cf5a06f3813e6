/**
 Environment sets: what the metadata file says, what the vault holds, and when the two agree
 (internal/envset/manager.go).
 */
module EnvSpec {
  import opened ByteStrings
  import opened KeyedLists
  import opened Names
  import opened Options
  import opened Vault

  datatype Kind = Unset | Variable | File | Unsupported

  datatype Entry = Entry(name: string, kind: Kind, target: string, filename: string, createdAt: int, updatedAt: int)

  datatype EnvSet = EnvSet(
    name: string, temporary: bool, createdAt: int, expiresAt: Option<int>, keys: seq<string>, entries: seq<Entry>)

  type Sets = map<string, EnvSet>

  const DEFAULT_TTL: int := 24 * 3600 * 1_000_000_000

  datatype EnvError =
    | NoSuchSet | SetExists | BadName | Expired | BadEntry | SharedTarget | Storage(error: Vault.Error)

  function NameOf(e: Entry): string {
    e.name
  }

  function Itself(s: string): string {
    s
  }

  function EntryNames(entries: seq<Entry>): (names: seq<string>)
    ensures |names| == |entries| && forall k :: 0 <= k < |names| ==> names[k] == entries[k].name
  {
    seq(|entries|, k requires 0 <= k < |entries| => entries[k].name)
  }

  function ScopeOf(project: string, name: string): string {
    project + "/" + name
  }

  predicate HasExpired(s: EnvSet, now: int) {
    s.expiresAt.Some? && now >= s.expiresAt.value
  }

  /** The entry with the defaults filled in. */
  function Normal(e: Entry): Entry {
    e.(kind := if e.kind == Unset then Variable else e.kind, target := if e.target == "" then e.name else e.target)
  }

  predicate ValidEntry(e: Entry) {
    && ValidName(e.name) && (e.kind == Variable || e.kind == File) && ValidTarget(e.target)
    && (e.kind == File ==> IsBaseName(e.filename))
  }

  predicate TakesTarget(entries: seq<Entry>, e: Entry) {
    exists k :: 0 <= k < |entries| && entries[k].name != e.name && entries[k].target == e.target
  }

  function NewSet(name: string, temporary: bool, ttl: int, now: int): EnvSet {
    var life := if ttl <= 0 then DEFAULT_TTL else ttl;
    EnvSet(name, temporary, now, if temporary then Some(now + life) else None, [], [])
  }

  /** The set after storing an entry; an entry that was there keeps its creation time. */
  function WithEntry(s: EnvSet, e: Entry, now: int): EnvSet {
    var existing := Find(s.entries, NameOf, e.name);
    var stamped := e.(createdAt := if existing.Some? then existing.value.createdAt else now, updatedAt := now);
    s.(entries := Upserted(s.entries, NameOf, stamped), keys := Upserted(s.keys, Itself, e.name))
  }

  function WithoutEntry(s: EnvSet, name: string): EnvSet {
    s.(entries := Removed(s.entries, NameOf, name), keys := Removed(s.keys, Itself, name))
  }

  // ----- When metadata and vault agree -----

  predicate DistinctTargets(entries: seq<Entry>) {
    forall j, k :: 0 <= j < k < |entries| ==> entries[j].target != entries[k].target
  }

  /** The metadata of one set is in order. */
  ghost predicate SetOk(name: string, s: EnvSet) {
    && s.name == name && ValidName(name) && InOrder(s.entries, NameOf) && s.keys == EntryNames(s.entries)
    && DistinctTargets(s.entries) && forall k :: 0 <= k < |s.entries| ==> ValidEntry(s.entries[k])
  }

  function PayloadOr(contents: Contents, scope: string): Payload {
    if scope in contents && contents[scope].Holds? then contents[scope].payload else NOTHING
  }

  /** The payload holds exactly the entries: variables as texts, files as blobs. */
  ghost predicate Backs(p: Payload, entries: seq<Entry>) {
    forall name ::
      var e := Find(entries, NameOf, name);
      (name in p.values <==> e.Some? && e.value.kind == Variable)
          && (name in p.blobs <==> e.Some? && e.value.kind == File)
  }

  ghost predicate SetAgrees(name: string, s: EnvSet, contents: Contents, scope: string) {
    && SetOk(name, s) && Backs(PayloadOr(contents, scope), s.entries)
    && (scope in contents ==> contents[scope].Holds? && contents[scope].payload != NOTHING)
  }

  ghost predicate ActiveOk(sets: Sets, active: string) {
    if active == "" then sets == map[] else active in sets
  }

  ghost predicate Agree(project: string, sets: Sets, active: string, contents: Contents) {
    && (forall name :: name in sets ==> SetAgrees(name, sets[name], contents, ScopeOf(project, name)))
    && (forall scope :: scope in contents ==> exists name :: name in sets && scope == ScopeOf(project, name))
    && ActiveOk(sets, active)
  }

  /** A project is identified by a hash in hexadecimal. */
  predicate ProjectOk(project: string) {
    '\0' !in project
  }

  // ----- Scopes -----

  lemma ScopesDiffer(project: string, a: string, b: string)
    requires ScopeOf(project, a) == ScopeOf(project, b)
    ensures a == b
  {
    assert a == ScopeOf(project, a)[|project| + 1..] && b == ScopeOf(project, b)[|project| + 1..];
  }

  lemma ScopeIsStorable(project: string, name: string)
    requires ProjectOk(project) && ValidName(name)
    ensures Storable(ScopeOf(project, name))
  {
    ValidNamesAreStorable(name);
    assert ScopeOf(project, name)[|project|] == '/';
    VisibleIsNotBlank(ScopeOf(project, name), |project|);
  }

  // ----- Names of entries and keys -----

  lemma {:induction false} SamePlaces(entries: seq<Entry>, id: string)
    ensures IndexOf(EntryNames(entries), Itself, id) == IndexOf(entries, NameOf, id)
    ensures PlaceOf(EntryNames(entries), Itself, id) == PlaceOf(entries, NameOf, id)
  {
    if entries != [] {
      assert EntryNames(entries)[1..] == EntryNames(entries[1..]);
      SamePlaces(entries[1..], id);
    }
  }

  lemma NamesOfUpserted(entries: seq<Entry>, e: Entry)
    ensures EntryNames(Upserted(entries, NameOf, e)) == Upserted(EntryNames(entries), Itself, e.name)
  {
    hide Less, IndexOf, PlaceOf;
    SamePlaces(entries, e.name);
  }

  lemma NamesOfRemoved(entries: seq<Entry>, id: string)
    ensures EntryNames(Removed(entries, NameOf, id)) == Removed(EntryNames(entries), Itself, id)
  {
    hide Less, IndexOf, PlaceOf;
    SamePlaces(entries, id);
  }

  // ----- One set -----

  lemma EntryInList(entries: seq<Entry>, k: nat)
    requires InOrder(entries, NameOf) && k < |entries|
    ensures Find(entries, NameOf, entries[k].name) == Some(entries[k])
  {
    FoundIfThere(entries, NameOf, k);
  }

  /** Storing a valid entry with a target of its own keeps the metadata of the set in order. */
  lemma WithEntryOk(name: string, s: EnvSet, e: Entry, now: int)
    requires SetOk(name, s) && ValidEntry(e) && !TakesTarget(s.entries, e)
    ensures SetOk(name, WithEntry(s, e, now))
  {
    hide ValidEntry, Less, InOrder, EntryNames, DistinctTargets, Find, Upserted, TakesTarget;
    var after := WithEntry(s, e, now);
    var existing := Find(s.entries, NameOf, e.name);
    var stamped := e.(createdAt := if existing.Some? then existing.value.createdAt else now, updatedAt := now);
    UpsertMeans(s.entries, NameOf, stamped, e.name);
    NamesOfUpserted(s.entries, stamped);
    TakesNoMore(s.entries, e, stamped);
    TargetsStayDistinct(s.entries, stamped);
    EntriesStayValid(s.entries, e, stamped);
  }

  lemma TakesNoMore(entries: seq<Entry>, e: Entry, stamped: Entry)
    requires stamped.name == e.name && stamped.target == e.target
    ensures TakesTarget(entries, stamped) <==> TakesTarget(entries, e)
  {
  }

  lemma EntriesStayValid(entries: seq<Entry>, e: Entry, stamped: Entry)
    requires forall k :: 0 <= k < |entries| ==> ValidEntry(entries[k])
    requires ValidEntry(e) && stamped == e.(createdAt := stamped.createdAt, updatedAt := stamped.updatedAt)
    ensures var after := Upserted(entries, NameOf, stamped); forall k :: 0 <= k < |after| ==> ValidEntry(after[k])
  {
    hide ValidName, ValidTarget, IsBaseName;
  }

  lemma TargetsStayDistinct(entries: seq<Entry>, e: Entry)
    requires InOrder(entries, NameOf) && DistinctTargets(entries) && !TakesTarget(entries, e)
    ensures DistinctTargets(Upserted(entries, NameOf, e))
  {
    if Has(entries, NameOf, e.name) {
      var k := IndexOf(entries, NameOf, e.name);
      forall j | 0 <= j < |entries| && j != k ensures entries[j].target != e.target {
        if entries[j].name == e.name {
          OrderedAreDistinct(entries, NameOf, j, k);
        }
      }
    }
  }

  lemma WithoutEntryOk(name: string, s: EnvSet, id: string)
    requires SetOk(name, s)
    ensures SetOk(name, WithoutEntry(s, id))
  {
    hide ValidEntry, ValidName, Less, InOrder, EntryNames;
    RemoveMeans(s.entries, NameOf, id, id);
    NamesOfRemoved(s.entries, id);
  }

  // ----- One set and its scope -----

  lemma BacksAfterPut(p: Payload, entries: seq<Entry>, e: Entry, value: Bytes)
    requires Backs(p, entries) && InOrder(entries, NameOf) && (e.kind == Variable || e.kind == File)
    ensures var after := if e.kind == File then WithBlob(p, e.name, value) else WithText(p, e.name, value);
            Backs(after, Upserted(entries, NameOf, e))
  {
    hide Find, Upserted, InOrder;
    forall name
      ensures Find(Upserted(entries, NameOf, e), NameOf, name) == if name == e.name then Some(e)
          else Find(entries, NameOf, name)
    {
      UpsertMeans(entries, NameOf, e, name);
    }
  }

  lemma BacksAfterDelete(p: Payload, entries: seq<Entry>, id: string)
    requires Backs(p, entries) && InOrder(entries, NameOf)
    ensures Backs(Without(p, id), Removed(entries, NameOf, id))
  {
    hide Find, Removed, InOrder;
    forall name
      ensures Find(Removed(entries, NameOf, id), NameOf, name) == if name == id then None
          else Find(entries, NameOf, name)
    {
      RemoveMeans(entries, NameOf, id, name);
    }
  }

  /** A change to one set and its scope keeps the agreement when the new set agrees with the new scope. */
  lemma AgreeAfterChange(project: string, sets: Sets, active: string, contents: Contents, name: string,
      s: EnvSet, after: Contents)
    requires Agree(project, sets, active, contents) && name in sets
    requires SetAgrees(name, s, after, ScopeOf(project, name))
    requires forall scope :: scope != ScopeOf(project, name) ==> SameSlot(contents, after, scope)
    ensures Agree(project, sets[name := s], active, after)
  {
    hide SetOk, Backs, ScopeOf;
    forall other | other in sets && other != name
      ensures SetAgrees(other, sets[other], after, ScopeOf(project, other))
    {
      if ScopeOf(project, other) == ScopeOf(project, name) {
        ScopesDiffer(project, other, name);
      }
      assert SetAgrees(other, sets[other], contents, ScopeOf(project, other));
      assert SameSlot(contents, after, ScopeOf(project, other));
    }
    forall scope | scope in after ensures exists other :: other in sets[name := s] && scope == ScopeOf(project, other) {
      if scope != ScopeOf(project, name) {
        assert SameSlot(contents, after, scope);
        var other :| other in sets && scope == ScopeOf(project, other);
        assert other in sets[name := s];
      } else {
        assert name in sets[name := s];
      }
    }
  }

  predicate SameSlot(before: Contents, after: Contents, scope: string) {
    (scope in before <==> scope in after) && (scope in before ==> before[scope] == after[scope])
  }

  /** Storing an entry in its set and its value in the vault keeps the agreement. */
  lemma PutAgrees<S, M>(c: Crypto<S, M>, project: string, sets: Sets, active: string, contents: Contents,
      name: string, e: Entry, value: Bytes, now: int)
    requires Agree(project, sets, active, contents) && name in sets && ProjectOk(project)
    requires ValidEntry(e) && !TakesTarget(sets[name].entries, e)
    ensures Stored(c, contents, ScopeOf(project, name), e.name, value, e.kind == File).Ok?
    ensures Agree(project, sets[name := WithEntry(sets[name], e, now)], active,
        Stored(c, contents, ScopeOf(project, name), e.name, value, e.kind == File).value)
  {
    hide ValidName, Storable, ValidTarget, IsBaseName, ScopeOf, TakesTarget, SetOk, InOrder, Find, Upserted, Backs;
    var s, scope := sets[name], ScopeOf(project, name);
    assert SetAgrees(name, s, contents, scope);
    SetOkMeans(name, s);
    ScopeIsStorable(project, name);
    ValidNamesAreStorable(e.name);
    WithEntryOk(name, s, e, now);
    var after := Stored(c, contents, scope, e.name, value, e.kind == File).value;
    var existing := Find(s.entries, NameOf, e.name);
    var stamped := e.(createdAt := if existing.Some? then existing.value.createdAt else now, updatedAt := now);
    BacksAfterPut(PayloadOr(contents, scope), s.entries, stamped, if e.kind == File then value else c.text(value));
    AgreeAfterChange(project, sets, active, contents, name, WithEntry(s, e, now), after);
  }

  lemma SetOkMeans(name: string, s: EnvSet)
    requires SetOk(name, s)
    ensures ValidName(name) && InOrder(s.entries, NameOf) && s.keys == EntryNames(s.entries) && s.name == name
  {
  }

  /** Deleting an entry from its set and from the vault keeps the agreement. */
  lemma DeleteAgrees(project: string, sets: Sets, active: string, contents: Contents, name: string, id: string)
    requires Agree(project, sets, active, contents) && name in sets && ProjectOk(project)
    requires Storable(id)
    ensures Deleted(contents, ScopeOf(project, name), id).Ok?
    ensures Agree(project, sets[name := WithoutEntry(sets[name], id)], active,
        Deleted(contents, ScopeOf(project, name), id).value)
  {
    hide ValidName, Storable, ScopeOf, SetOk, InOrder, Find, Removed, Backs;
    var s, scope := sets[name], ScopeOf(project, name);
    assert SetAgrees(name, s, contents, scope);
    SetOkMeans(name, s);
    ScopeIsStorable(project, name);
    WithoutEntryOk(name, s, id);
    var after := Deleted(contents, scope, id).value;
    BacksAfterDelete(PayloadOr(contents, scope), s.entries, id);
    PayloadAfterDelete(contents, scope, id);
    AgreeAfterChange(project, sets, active, contents, name, WithoutEntry(s, id), after);
  }

  lemma PayloadAfterDelete(contents: Contents, scope: string, id: string)
    requires
      && Deleted(contents, scope, id).Ok?
      && (scope in contents ==> contents[scope].Holds? && contents[scope].payload != NOTHING)
    ensures var after := Deleted(contents, scope, id).value;
            && PayloadOr(after, scope) == Without(PayloadOr(contents, scope), id)
            && (scope in after ==> after[scope].Holds? && after[scope].payload != NOTHING)
  {
    hide Storable;
    var p := PayloadOr(contents, scope);
    if id !in p.values && id !in p.blobs {
      assert Without(p, id).values == p.values && Without(p, id).blobs == p.blobs;
    }
  }

  // ----- Whole sets -----

  /** A new set is empty, and nothing is stored under its scope. */
  lemma CreateAgrees(project: string, sets: Sets, active: string, contents: Contents, s: EnvSet)
    requires Agree(project, sets, active, contents) && s.name !in sets && ValidName(s.name)
    requires s.entries == [] && s.keys == []
    ensures Agree(project, sets[s.name := s], if active == "" then s.name else active, contents)
  {
    hide SetOk, Backs, ScopeOf, ValidName;
    ValidNamesAreStorable(s.name);
    var scope := ScopeOf(project, s.name);
    if scope in contents {
      var other :| other in sets && scope == ScopeOf(project, other);
      ScopesDiffer(project, other, s.name);
    }
    EmptySetOk(s);
    forall other | other in sets ensures SetAgrees(other, sets[other], contents, ScopeOf(project, other)) {}
    forall used | used in contents
      ensures exists other :: other in sets[s.name := s] && used == ScopeOf(project, other)
    {
      var other :| other in sets && used == ScopeOf(project, other);
      assert other in sets[s.name := s];
    }
  }

  lemma EmptySetOk(s: EnvSet)
    requires ValidName(s.name) && s.entries == [] && s.keys == []
    ensures SetOk(s.name, s) && Backs(NOTHING, s.entries)
  {
    hide ValidName;
  }

  /** The least of some names; none: the empty text. */
  ghost function LeastOf(names: set<string>): (least: string)
    ensures names != {} ==> IsLeast(names, least)
    ensures names == {} ==> least == ""
  {
    if names == {} then ""
    else
      LeastExists(names);
      var least :| IsLeast(names, least);
      least
  }

  ghost predicate IsLeast(names: set<string>, least: string) {
    least in names && forall n :: n in names ==> n == least || Less(least, n)
  }

  lemma {:induction false} LeastExists(names: set<string>)
    requires names != {}
    ensures exists least :: IsLeast(names, least)
  {
    var n :| n in names;
    if names == {n} {
      assert IsLeast(names, n);
    } else {
      var rest := names - {n};
      assert rest == {} ==> names == {n};
      LeastExists(rest);
      var m :| IsLeast(rest, m);
      LessIsTotal(m, n);
      if Less(m, n) {
        assert IsLeast(names, m);
      } else {
        forall k | k in names ensures k == n || Less(n, k) {
          if k != n && k != m {
            LessIsTransitive(n, m, k);
          }
        }
        assert IsLeast(names, n);
      }
    }
  }

  lemma LeastIsUnique(names: set<string>, least: string)
    requires IsLeast(names, least)
    ensures LeastOf(names) == least
  {
    var other := LeastOf(names);
    if other != least {
      LessIsTransitive(other, least, other);
      LessIsIrreflexive(other);
    }
  }

  /** Which set is active once one is gone. */
  ghost function ActiveWithout(sets: Sets, active: string, name: string): string {
    if active == name then LeastOf((sets - {name}).Keys) else active
  }

  /** The set without its first n entries. */
  function Drop(s: EnvSet, n: nat): EnvSet
    requires n <= |s.entries| && n <= |s.keys|
  {
    s.(entries := s.entries[n..], keys := s.keys[n..])
  }

  lemma DropOne(name: string, s: EnvSet, n: nat)
    requires SetOk(name, s) && n < |s.entries|
    ensures n < |s.keys| && WithoutEntry(Drop(s, n), s.keys[n]) == Drop(s, n + 1)
    ensures ValidName(s.keys[n])
  {
    hide ValidEntry, ValidName, Less, DistinctTargets, InOrder;
    SetOkMeans(name, s);
    FirstGoes(s.entries[n..], NameOf);
    FirstGoes(s.keys[n..], Itself);
    EntryNameIsValid(name, s, n);
  }

  lemma FirstGoes<T>(s: seq<T>, key: T -> string)
    requires s != []
    ensures Removed(s, key, key(s[0])) == s[1..]
  {
  }

  lemma EntryNameIsValid(name: string, s: EnvSet, n: nat)
    requires SetOk(name, s) && n < |s.entries|
    ensures ValidName(s.entries[n].name)
  {
    assert ValidEntry(s.entries[n]);
  }

  /** When all entries of a set are gone its scope is gone, and the set can go. */
  lemma RemoveAgrees(project: string, sets: Sets, active: string, contents: Contents, name: string, s: EnvSet)
    requires name in sets && Agree(project, sets[name := s], active, contents) && s.entries == []
    ensures ScopeOf(project, name) !in contents
    ensures Agree(project, sets - {name}, ActiveWithout(sets, active, name), contents)
  {
    hide ScopeOf, ValidName, Backs;
    var before, after := sets[name := s], sets - {name};
    assert SetAgrees(name, before[name], contents, ScopeOf(project, name));
    NothingIsBacked(PayloadOr(contents, ScopeOf(project, name)), s.entries);
    forall other | other in after ensures SetAgrees(other, after[other], contents, ScopeOf(project, other)) {
      assert SetAgrees(other, before[other], contents, ScopeOf(project, other));
    }
    forall scope | scope in contents ensures exists other :: other in after && scope == ScopeOf(project, other) {
      var other :| other in before && scope == ScopeOf(project, other);
      assert other in after;
    }
    forall n | n in before ensures n != "" {
      assert SetAgrees(n, before[n], contents, ScopeOf(project, n));
      ValidNamesAreStorable(n);
    }
    assert after.Keys == before.Keys - {name};
    assert after.Keys == (sets - {name}).Keys;
    LeastIsActive(after, active, name, before);
  }

  lemma NothingIsBacked(p: Payload, entries: seq<Entry>)
    requires Backs(p, entries) && entries == []
    ensures p == NOTHING
  {
    assert forall k :: k !in p.values && k !in p.blobs;
    assert p.values == map[] && p.blobs == map[];
  }

  lemma LeastIsActive(after: Sets, active: string, name: string, before: Sets)
    requires ActiveOk(before, active) && name in before && after.Keys == before.Keys - {name}
    requires forall n :: n in before ==> n != ""
    ensures ActiveOk(after, if active == name then LeastOf(after.Keys) else active)
  {
    if active == name && after.Keys == {} {
      assert after == map[];
    }
  }

  // ----- For the manager -----

  /** Why an entry cannot be stored. */
  function PutError(sets: Sets, name: string, e: Entry, now: int): Option<EnvError> {
    if name !in sets then Some(NoSuchSet)
    else if HasExpired(sets[name], now) then Some(Expired)
    else if !ValidEntry(e) then Some(BadEntry)
    else if TakesTarget(sets[name].entries, e) then Some(SharedTarget)
    else None
  }

  lemma SetIsOk(project: string, sets: Sets, active: string, contents: Contents, name: string)
    requires Agree(project, sets, active, contents) && name in sets
    ensures
      && SetOk(name, sets[name])
      && sets[name].name == name
      && SetAgrees(name, sets[name], contents, ScopeOf(project, name))
  {
  }

  lemma SetNameIsVisible(project: string, sets: Sets, active: string, contents: Contents, name: string)
    requires Agree(project, sets, active, contents) && name in sets
    ensures name != ""
  {
    assert SetAgrees(name, sets[name], contents, ScopeOf(project, name));
    ValidNamesAreStorable(name);
  }

  /** Replacing or appending and then sorting is an upsert. */
  lemma SortedIsUpserted<T(!new)>(s: seq<T>, key: T -> string, x: T, updated: seq<T>, sorted: seq<T>)
    requires InOrder(s, key) && multiset(sorted) == multiset(updated) && InWeakOrder(sorted, key)
    requires updated == if Has(s, key, key(x)) then s[IndexOf(s, key, key(x)) := x] else s + [x]
    ensures sorted == Upserted(s, key, x)
  {
    hide Less;
    if Has(s, key, key(x)) {
      UpsertMeans(s, key, x, key(x));
      OrderIsUnique(updated, sorted, key);
    } else {
      SortedIsInserted(s, key, x, sorted);
    }
  }

  lemma KeysAreUpserted(s: EnvSet, name: string, keys: seq<string>)
    requires SetOk(s.name, s)
    requires if name in s.keys then keys == s.keys
        else multiset(keys) == multiset(s.keys + [name]) && InWeakOrder(keys, Itself)
    ensures keys == Upserted(s.keys, Itself, name)
  {
    KeysInOrder(s);
    if name !in s.keys {
      SortedIsInserted(s.keys, Itself, name, keys);
    }
  }

  lemma KeysInOrder(s: EnvSet)
    requires SetOk(s.name, s)
    ensures InOrder(s.keys, Itself)
  {
    hide ValidEntry, ValidName;
    assert forall k :: 0 <= k < |s.keys| ==> Itself(s.keys[k]) == NameOf(s.entries[k]);
  }

  function Filtered(values: seq<string>, unwanted: string): seq<string> {
    if values == [] then []
    else
      var last := values[|values| - 1];
      Filtered(values[..|values| - 1], unwanted) + if last != unwanted then [last] else []
  }

  lemma {:induction false} FilteredWithout(values: seq<string>, unwanted: string)
    requires unwanted !in values
    ensures Filtered(values, unwanted) == values
  {
    if values != [] {
      FilteredWithout(values[..|values| - 1], unwanted);
    }
  }

  lemma {:induction false} FilteredOne(values: seq<string>, unwanted: string, k: nat)
    requires k < |values| && values[k] == unwanted
    requires forall j :: 0 <= j < |values| && j != k ==> values[j] != unwanted
    ensures Filtered(values, unwanted) == values[..k] + values[k + 1..]
  {
    var n := |values| - 1;
    if k == n {
      FilteredWithout(values[..n], unwanted);
    } else {
      FilteredOne(values[..n], unwanted, k);
      assert values[..n][k + 1..] + [values[n]] == values[k + 1..];
    }
  }

  lemma KeysAreRemoved(s: EnvSet, name: string, keys: seq<string>)
    requires SetOk(s.name, s) && keys == Filtered(s.keys, name)
    ensures keys == Removed(s.keys, Itself, name)
  {
    KeysInOrder(s);
    var k := IndexOf(s.keys, Itself, name);
    if k < |s.keys| {
      forall j | 0 <= j < |s.keys| && j != k ensures s.keys[j] != name {
        if s.keys[j] == name {
          OrderedAreDistinct(s.keys, Itself, j, k);
        }
      }
      FilteredOne(s.keys, name, k);
    } else {
      FilteredWithout(s.keys, name);
    }
  }

  /** Sorting distinct names puts them in strict order. */
  lemma SortedDistinct(names: seq<string>, sorted: seq<string>)
    requires multiset(sorted) == multiset(names) && InWeakOrder(sorted, Itself)
    requires forall j, k :: 0 <= j < k < |names| ==> names[j] != names[k]
    ensures InOrder(sorted, Itself) && forall n :: n in sorted <==> n in names
  {
    assert forall n :: n in sorted <==> n in multiset(sorted);
    assert forall n :: n in names <==> n in multiset(names);
    forall j, k | 0 <= j < k < |sorted| ensures Less(sorted[j], sorted[k]) {
      if sorted[j] == sorted[k] {
        TwiceInMultiset(sorted, j, k);
        OnceInMultiset(names, sorted[j]);
      }
      LessIsTotal(sorted[j], sorted[k]);
      assert !Less(Itself(sorted[k]), Itself(sorted[j]));
    }
  }

  lemma TwiceInMultiset(names: seq<string>, j: nat, k: nat)
    requires j < k < |names| && names[j] == names[k]
    ensures multiset(names)[names[j]] >= 2
  {
    assert names == names[..k] + [names[k]] + names[k + 1..];
    assert names[j] == names[..k][j];
  }

  lemma {:induction false} OnceInMultiset(names: seq<string>, n: string)
    requires forall j, k :: 0 <= j < k < |names| ==> names[j] != names[k]
    ensures multiset(names)[n] <= 1
  {
    if names != [] {
      var rest := names[..|names| - 1];
      OnceInMultiset(rest, n);
      assert names == rest + [names[|names| - 1]];
    }
  }

  // ----- Removing a set -----

  /** Everywhere but under one scope, the vault holds what it held. */
  ghost predicate SameElsewhere(before: Contents, after: Contents, scope: string) {
    forall other :: other != scope ==> SameSlot(before, after, other)
  }

  lemma DeleteElsewhere(contents: Contents, scope: string, key: string)
    requires Deleted(contents, scope, key).Ok?
    ensures SameElsewhere(contents, Deleted(contents, scope, key).value, scope)
  {
    hide Storable;
  }

  lemma SameElsewhereChains(a: Contents, b: Contents, c: Contents, scope: string)
    requires SameElsewhere(a, b, scope) && SameElsewhere(b, c, scope)
    ensures SameElsewhere(a, c, scope)
  {
    forall other | other != scope ensures SameSlot(a, c, other) {
      assert SameSlot(a, b, other) && SameSlot(b, c, other);
    }
  }

  lemma ScopeGone(before: Contents, after: Contents, scope: string)
    requires SameElsewhere(before, after, scope) && scope !in after
    ensures after == before - {scope}
  {
    forall other ensures other in after <==> other in before && other != scope {
      assert other != scope ==> SameSlot(before, after, other);
    }
    forall other | other in after ensures after[other] == before[other] {
      assert SameSlot(before, after, other);
    }
  }

  /** One key of a set that is being removed is gone from the vault. */
  lemma DropAgrees(project: string, sets: Sets, active: string, contents: Contents, name: string, n: nat)
    requires
      && name in sets
      && SetOk(name, sets[name])
      && n < |sets[name].entries|
      && n < |sets[name].keys|
      && ProjectOk(project)
    requires Agree(project, sets[name := Drop(sets[name], n)], active, contents)
    ensures var d := Deleted(contents, ScopeOf(project, name), sets[name].keys[n]);
            d.Ok? && Agree(project, sets[name := Drop(sets[name], n + 1)], active, d.value)
  {
    hide Agree, Deleted, ScopeOf, SetOk, ValidName, Storable, WithoutEntry, Drop;
    var s := sets[name];
    DropOne(name, s, n);
    ValidNamesAreStorable(s.keys[n]);
    var before := sets[name := Drop(s, n)];
    DeleteAgrees(project, before, active, contents, name, s.keys[n]);
    assert before[name := Drop(s, n + 1)] == sets[name := Drop(s, n + 1)];
  }

  lemma DropNothing(sets: Sets, name: string)
    requires name in sets
    ensures sets[name := Drop(sets[name], 0)] == sets
  {
    var s := sets[name];
    assert s.entries[0..] == s.entries && s.keys[0..] == s.keys;
  }

  lemma SameElsewhereSelf(contents: Contents, scope: string)
    ensures SameElsewhere(contents, contents, scope)
  {
  }

  function Emptied(s: EnvSet): EnvSet {
    s.(entries := [], keys := [])
  }

  lemma DropEverything(s: EnvSet)
    requires |s.keys| == |s.entries|
    ensures Drop(s, |s.keys|) == Emptied(s)
  {
  }

  lemma FirstIsLeast(names: seq<string>, all: set<string>) returns (least: string)
    requires InOrder(names, Itself) && forall n :: n in names <==> n in all
    ensures least == LeastOf(all) == if |names| > 0 then names[0] else ""
  {
    if |names| > 0 {
      forall n | n in all ensures n == names[0] || Less(names[0], n) {
        var k :| 0 <= k < |names| && names[k] == n;
        assert 0 < k ==> Less(Itself(names[0]), Itself(names[k]));
      }
      LeastIsUnique(all, names[0]);
      return names[0];
    }
    assert all == {};
    return "";
  }

  lemma ActiveNext(sets: Sets, active: string, name: string)
    ensures ActiveWithout(sets, active, name) == if active == name then LeastOf((sets - {name}).Keys) else active
  {
  }

  // ----- Pruning -----

  predicate Doomed(s: EnvSet, now: int) {
    s.temporary && HasExpired(s, now)
  }

  /** The sets that pruning keeps. */
  function Surviving(sets: Sets, now: int): Sets {
    map name | name in sets && !Doomed(sets[name], now) :: sets[name]
  }

  ghost function ActiveAfterPrune(sets: Sets, active: string, now: int): string {
    if active in sets && Doomed(sets[active], now) then LeastOf(Surviving(sets, now).Keys) else active
  }

  /** Where pruning stands when some doomed sets are gone. */
  ghost predicate Pruning(before: Sets, beforeActive: string, sets: Sets, active: string, gone: set<string>) {
    && gone <= before.Keys && sets == before - gone
    && active == if beforeActive in gone then LeastOf(sets.Keys) else beforeActive
  }

  lemma PruneOne(before: Sets, beforeActive: string, sets: Sets, active: string, gone: set<string>, name: string)
    requires Pruning(before, beforeActive, sets, active, gone) && name in sets && ActiveOk(before, beforeActive)
    ensures Pruning(before, beforeActive, sets - {name}, ActiveWithout(sets, active, name), gone + {name})
  {
    assert before - (gone + {name}) == before - gone - {name};
    var after := sets - {name};
    assert after.Keys == sets.Keys - {name};
    if beforeActive in gone && active != name {
      assert IsLeast(sets.Keys, active);
      assert IsLeast(after.Keys, active);
      LeastIsUnique(after.Keys, active);
    }
  }

  lemma PruneDone(before: Sets, beforeActive: string, sets: Sets, active: string, gone: set<string>, now: int)
    requires Pruning(before, beforeActive, sets, active, gone)
    requires forall n :: n in gone <==> n in before && Doomed(before[n], now)
    ensures sets == Surviving(before, now) && active == ActiveAfterPrune(before, beforeActive, now)
  {
  }

  // ----- Cloning -----

  function Restamped(entries: seq<Entry>, now: int): (r: seq<Entry>)
    ensures |r| == |entries|
    ensures forall k :: 0 <= k < |r| ==> r[k] == entries[k].(createdAt := now, updatedAt := now)
  {
    seq(|entries|, k requires 0 <= k < |entries| => entries[k].(createdAt := now, updatedAt := now))
  }

  /** A permanent set with the entries of another. */
  function CloneOf(s: EnvSet, name: string, now: int): EnvSet {
    NewSet(name, false, 0, now).(entries := Restamped(s.entries, now), keys := s.keys)
  }

  function FirstEntries(s: EnvSet, name: string, n: nat, now: int): EnvSet
    requires n <= |s.entries| && n <= |s.keys|
  {
    NewSet(name, false, 0, now).(entries := Restamped(s.entries[..n], now), keys := s.keys[..n])
  }

  /** An element above all others goes to the end. */
  lemma {:induction false} UpsertAtEnd<T>(s: seq<T>, key: T -> string, x: T)
    requires forall j :: 0 <= j < |s| ==> Less(key(s[j]), key(x))
    ensures Upserted(s, key, x) == s + [x] && !Has(s, key, key(x))
  {
    if Has(s, key, key(x)) {
      LessIsIrreflexive(key(x));
    }
    var p := PlaceOf(s, key, key(x));
    assert p == |s|;
  }

  function Unstamped(e: Entry): Entry {
    e.(createdAt := 0, updatedAt := 0)
  }

  lemma CloneOneMore(name: string, from: EnvSet, to: string, n: nat, now: int)
    requires SetOk(name, from) && n < |from.entries|
    ensures |from.keys| == |from.entries|
    ensures WithEntry(FirstEntries(from, to, n, now), Unstamped(from.entries[n]), now) ==
        FirstEntries(from, to, n + 1, now)
  {
    hide ValidName, Less, ValidTarget, IsBaseName;
    var first, e := FirstEntries(from, to, n, now), from.entries[n];
    var stamped := e.(createdAt := now, updatedAt := now);
    forall j | 0 <= j < n ensures Less(NameOf(first.entries[j]), NameOf(stamped)) {
      assert Less(NameOf(from.entries[j]), NameOf(from.entries[n]));
      assert first.entries[j] == from.entries[..n][j].(createdAt := now, updatedAt := now);
    }
    UpsertAtEnd(first.entries, NameOf, stamped);
    UpsertAtEnd(first.keys, Itself, e.name);
    assert Find(first.entries, NameOf, e.name) == None;
    assert first.entries + [stamped] == Restamped(from.entries[..n + 1], now);
    assert first.keys + [e.name] == from.keys[..n + 1];
  }

  /** Nothing keeps the next entry from being stored in the clone. */
  lemma CloneCanPut(sets: Sets, name: string, from: EnvSet, to: string, n: nat, now: int)
    requires SetOk(name, from) && n < |from.entries| && to in sets
    requires |from.keys| == |from.entries| && sets[to] == FirstEntries(from, to, n, now)
    ensures var e := Unstamped(from.entries[n]); Normal(e) == e && PutError(sets, to, e, now) == None
  {
    hide ValidName, Less, IsBaseName, InOrder;
    var first, e := FirstEntries(from, to, n, now), from.entries[n];
    assert ValidEntry(e);
    forall j | 0 <= j < n ensures first.entries[j].target != e.target {
      assert from.entries[j].target != from.entries[n].target;
      assert first.entries[j] == from.entries[..n][j].(createdAt := now, updatedAt := now);
    }
  }

  /** Reading an entry of a set that agrees with the vault succeeds, and text comes back as JSON has it. */
  lemma EntryIsStored<S(!new), M(!new)>(c: Crypto<S, M>, scopes: map<string, S>, project: string, sets: Sets,
      active: string, name: string, k: nat)
    requires Sound(c) && Agree(project, sets, active, Opened(c, scopes)) && ProjectOk(project)
    requires name in sets && k < |sets[name].entries|
    ensures var e := sets[name].entries[k];
            var contents := Opened(c, scopes);
            var r := if e.kind == File then Blob(contents, ScopeOf(project, name), e.name)
                else Text(contents, ScopeOf(project, name), e.name);
            r.Ok? && (e.kind != File ==> c.text(r.value) == r.value)
  {
    hide ValidName, Storable, ScopeOf, Less, ValidTarget, IsBaseName, InOrder, Find;
    var contents, scope, e := Opened(c, scopes), ScopeOf(project, name), sets[name].entries[k];
    assert SetAgrees(name, sets[name], contents, scope);
    SetOkMeans(name, sets[name]);
    EntryInList(sets[name].entries, k);
    assert ValidEntry(e);
    ScopeIsStorable(project, name);
    ValidNamesAreStorable(e.name);
    assert e.name in PayloadOr(contents, scope).values || e.name in PayloadOr(contents, scope).blobs;
    assert scope in contents;
    assert contents[scope] == OpenSlot(c, scope, scopes[scope]);
  }

  /** The values that a clone holds: those of the set it was made from. */
  ghost predicate SameValues(before: Contents, scope: string, after: Contents, copy: string, entries: seq<Entry>) {
    forall k :: 0 <= k < |entries| ==> SameValue(before, scope, after, copy, entries[k])
  }

  predicate SameValue(before: Contents, scope: string, after: Contents, copy: string, e: Entry) {
    if e.kind == File then Blob(after, copy, e.name) == Blob(before, scope, e.name) && Blob(before, scope, e.name).Ok?
    else Text(after, copy, e.name) == Text(before, scope, e.name) && Text(before, scope, e.name).Ok?
  }

  /** Copying one more entry: what was copied before stays. */
  lemma CopyOneMore<S, M>(c: Crypto<S, M>, before: Contents, scope: string, contents: Contents, after: Contents,
      copy: string, entries: seq<Entry>, n: nat, value: Bytes)
    requires n < |entries| && scope != copy && InOrder(entries, NameOf)
    requires SameValues(before, scope, contents, copy, entries[..n]) && SameElsewhere(before, contents, copy)
    requires Stored(c, contents, copy, entries[n].name, value, entries[n].kind == File) == Vault.Ok(after)
    requires entries[n].kind == File ==> Blob(contents, scope, entries[n].name) == Vault.Ok(value)
    requires entries[n].kind != File ==> Text(contents, scope, entries[n].name) == Vault.Ok(value)
    requires entries[n].kind == File || c.text(value) == value
    ensures SameValues(before, scope, after, copy, entries[..n + 1]) && SameElsewhere(before, after, copy)
  {
    hide Storable, Less, Blob, Text, Stored;
    var e := entries[n];
    StoredIsRead(c, contents, copy, e.name, value, e.kind == File);
    StoredElsewhere(c, contents, copy, e.name, value, e.kind == File);
    SameElsewhereChains(before, contents, after, copy);
    ReadsElsewhere(before, contents, copy, scope, e.name);
    forall k | 0 <= k < n + 1 ensures SameValue(before, scope, after, copy, entries[k]) {
      if k < n {
        assert SameValue(before, scope, contents, copy, entries[..n][k]);
        NamesDiffer(entries, k, n);
      }
    }
  }

  lemma NamesDiffer(entries: seq<Entry>, j: nat, k: nat)
    requires InOrder(entries, NameOf) && j < k < |entries|
    ensures entries[j].name != entries[k].name
  {
    if entries[j].name == entries[k].name {
      OrderedAreDistinct(entries, NameOf, j, k);
    }
  }

  lemma StoredElsewhere<S, M>(c: Crypto<S, M>, contents: Contents, scope: string, key: string, value: Bytes, blob: bool)
    requires Stored(c, contents, scope, key, value, blob).Ok?
    ensures SameElsewhere(contents, Stored(c, contents, scope, key, value, blob).value, scope)
  {
    hide Storable;
  }

  lemma ReadsElsewhere(before: Contents, after: Contents, changed: string, scope: string, key: string)
    requires SameElsewhere(before, after, changed) && scope != changed
    ensures Text(after, scope, key) == Text(before, scope, key) && Blob(after, scope, key) == Blob(before, scope, key)
  {
    hide Storable;
    assert SameSlot(before, after, scope);
  }

  /**
   Why a set cannot be cloned. A clone of an expired set fails only once it reads an entry: an empty set stays
   behind.
   */
  function CloneError(sets: Sets, from: string, to: string, now: int): Option<EnvError> {
    if from !in sets then Some(NoSuchSet)
    else if to in sets then Some(SetExists)
    else if !ValidName(to) then Some(BadName)
    else if HasExpired(sets[from], now) && sets[from].entries != [] then Some(Expired)
    else None
  }

  lemma CloneStart(sets: Sets, from: string, to: string, now: int)
    requires from in sets && |sets[from].keys| == |sets[from].entries|
    ensures FirstEntries(sets[from], to, 0, now) == NewSet(to, false, 0, now)
    ensures FirstEntries(sets[from], to, |sets[from].entries|, now) == CloneOf(sets[from], to, now)
  {
    var s := sets[from];
    assert s.entries[..|s.entries|] == s.entries && s.keys[..|s.keys|] == s.keys;
    assert Restamped(s.entries[..0], now) == [];
  }

  lemma ScopesApart(project: string, a: string, b: string)
    requires a != b
    ensures ScopeOf(project, a) != ScopeOf(project, b)
  {
    if ScopeOf(project, a) == ScopeOf(project, b) {
      ScopesDiffer(project, a, b);
    }
  }

  lemma HasActive(project: string, sets: Sets, active: string, contents: Contents, name: string)
    requires Agree(project, sets, active, contents) && name in sets
    ensures active != ""
  {
  }

  lemma NoValues(before: Contents, scope: string, copy: string)
    ensures SameValues(before, scope, before, copy, [])
  {
  }

  lemma PruneStart(project: string, sets: Sets, active: string, contents: Contents)
    requires Agree(project, sets, active, contents)
    ensures Pruning(sets, active, sets, active, {}) && ActiveOk(sets, active)
  {
    assert sets - {} == sets;
  }

  lemma StillThere(before: Sets, beforeActive: string, sets: Sets, active: string, gone: set<string>, name: string)
    requires Pruning(before, beforeActive, sets, active, gone) && name in before && name !in gone
    ensures name in sets && sets[name] == before[name]
  {
  }

  lemma SetsLeft(before: Sets, beforeActive: string, sets: Sets, active: string, gone: set<string>)
    requires Pruning(before, beforeActive, sets, active, gone)
    ensures |sets| == |before| - |gone|
  {
    assert (before - gone).Keys == before.Keys - gone;
    assert before.Keys == (before.Keys - gone) + gone;
  }
}
