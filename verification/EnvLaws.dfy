/** What the operations on environment sets mean, entry by entry and moment by moment (internal/envset/manager.go). */
module EnvLaws {
  import opened EnvSpec
  import opened KeyedLists
  import opened Names
  import opened Options

  const HOUR: int := 3600 * 1_000_000_000

  /** A temporary set lives for the time asked for, or a day; a permanent one does not expire. */
  lemma NewSetLives(name: string, temporary: bool, ttl: int, created: int, now: int)
    ensures var s := NewSet(name, temporary, ttl, created);
            && s.name == name && s.temporary == temporary && s.createdAt == created && s.entries == [] && s.keys == []
            && (HasExpired(s, now) <==> temporary && now >= created + (if ttl > 0 then ttl else 24 * HOUR))
  {
  }

  /** Everything about the set but its entries and their names. */
  predicate SameSet(a: EnvSet, b: EnvSet) {
    a.name == b.name && a.temporary == b.temporary && a.createdAt == b.createdAt && a.expiresAt == b.expiresAt
  }

  /** The entry as given, stored now; when it was first stored stays known. */
  predicate StoredNow(stored: Entry, e: Entry, before: Option<Entry>, now: int) {
    && stored.name == e.name && stored.kind == e.kind && stored.target == e.target && stored.filename == e.filename
    && stored.updatedAt == now
    && stored.createdAt == if before.Some? then before.value.createdAt else now
  }

  /** Storing an entry changes that entry alone: its first time stays, and neither the set nor its end changes. */
  lemma PuttingMeans(s: EnvSet, e: Entry, now: int, id: string)
    requires InOrder(s.entries, NameOf)
    ensures SameSet(s, WithEntry(s, e, now))
    ensures var before, after := Find(s.entries, NameOf, id), Find(WithEntry(s, e, now).entries, NameOf, id);
            if id == e.name then after.Some? && StoredNow(after.value, e, before, now) else after == before
  {
    hide Find, Upserted, InOrder;
    var existing := Find(s.entries, NameOf, e.name);
    var stamped := e.(createdAt := if existing.Some? then existing.value.createdAt else now, updatedAt := now);
    UpsertMeans(s.entries, NameOf, stamped, id);
  }

  /** Deleting takes one entry away and touches nothing else. */
  lemma DeletingMeans(s: EnvSet, name: string, id: string)
    requires InOrder(s.entries, NameOf)
    ensures SameSet(s, WithoutEntry(s, name))
    ensures Find(WithoutEntry(s, name).entries, NameOf, id) == if id == name then None else Find(s.entries, NameOf, id)
  {
    hide Find, Removed, InOrder;
    RemoveMeans(s.entries, NameOf, name, id);
  }

  /** An entry can be stored exactly in a set that is there and alive, under a target that no other entry has. */
  lemma PuttingSucceedsWhen(sets: Sets, name: string, e: Entry, now: int)
    ensures PutError(sets, name, e, now) == None <==>
              && name in sets
              && (sets[name].expiresAt == None || now < sets[name].expiresAt.value)
              && ValidName(e.name) && ValidTarget(e.target)
              && (e.kind == Variable || (e.kind == File && IsBaseName(e.filename)))
              && forall other :: other in sets[name].entries && other.name != e.name ==> other.target != e.target
  {
    hide ValidName, ValidTarget, IsBaseName;
  }

  /** Pruning keeps exactly the sets that are permanent or still alive, as they are. */
  lemma PruningMeans(sets: Sets, now: int, name: string)
    ensures name in Surviving(sets, now) <==>
              && name in sets
              && (!sets[name].temporary || sets[name].expiresAt == None || now < sets[name].expiresAt.value)
    ensures name in Surviving(sets, now) ==> Surviving(sets, now)[name] == sets[name]
  {
  }

  /** A clone is permanent and new, and has the same entries, stored now. */
  lemma CloningMeans(s: EnvSet, name: string, now: int, id: string)
    ensures var c := CloneOf(s, name, now);
            c.name == name && !c.temporary && c.createdAt == now && c.expiresAt == None && c.keys == s.keys
    ensures var from, to := Find(s.entries, NameOf, id), Find(CloneOf(s, name, now).entries, NameOf, id);
            if from == None then to == None else to.Some? && StoredNow(to.value, from.value, None, now)
  {
    hide IndexOf, Restamped;
    RestampedAt(s.entries, now, id);
  }

  lemma {:induction false} RestampedAt(entries: seq<Entry>, now: int, id: string)
    ensures IndexOf(Restamped(entries, now), NameOf, id) == IndexOf(entries, NameOf, id)
  {
    if entries != [] {
      assert Restamped(entries, now)[1..] == Restamped(entries[1..], now);
      RestampedAt(entries[1..], now, id);
    }
  }
}
