/** The manager of environment sets (internal/envset/manager.go), for one process. */
module EnvManagers {
  import opened ByteStrings
  import opened EnvSpec
  import opened KeyedLists
  import opened Names
  import opened Options
  import opened Vault

  class Manager<S(!new), M(==, !new)> {
    const project: string
    const vault: Store<S, M>
    var sets: Sets
    var active: string

    /** Metadata and vault agree. */
    ghost predicate Valid()
      reads this, vault
    {
      vault.Valid() && ProjectOk(project) && Agree(project, sets, active, vault.Contents())
    }

    /** A project that has no sets yet. */
    constructor (project: string, vault: Store<S, M>)
      requires ProjectOk(project) && vault.Valid() && vault.Contents() == map[]
      ensures Valid() && this.project == project && this.vault == vault && sets == map[] && active == ""
    {
      this.project := project;
      this.vault := vault;
      sets := map[];
      active := "";
    }

    method Create(name: string, temporary: bool, ttl: int, now: int) returns (error: Option<EnvError>)
      requires Valid()
      modifies this
      ensures Valid()
      ensures error == if !ValidName(name) then Some(BadName) else if name in old(sets) then Some(SetExists) else None
      ensures sets == if error == None then old(sets)[name := NewSet(name, temporary, ttl, now)] else old(sets)
      ensures active == if error == None && old(active) == "" then name else old(active)
    {
      hide ValidName, Agree, Sound;
      if !ValidName(name) {
        return Some(BadName);
      }
      if name in sets {
        return Some(SetExists);
      }
      CreateAgrees(project, sets, active, vault.Contents(), NewSet(name, temporary, ttl, now));
      sets := sets[name := NewSet(name, temporary, ttl, now)];
      if active == "" {
        active := name;
      }
      return None;
    }

    method Use(name: string) returns (error: Option<EnvError>)
      requires Valid()
      modifies this`active
      ensures Valid()
      ensures if name in sets then error == None && active == name
          else error == Some(NoSuchSet) && active == old(active)
    {
      hide Sound, SetAgrees, ScopeOf, ValidName;
      if name !in sets {
        return Some(NoSuchSet);
      }
      SetNameIsVisible(project, sets, active, vault.Contents(), name);
      active := name;
      return None;
    }

    /** Stores a value in the vault and describes it in the metadata. */
    method PutEntry(name: string, entry: Entry, value: Bytes, nonce: int, now: int) returns (error: Option<EnvError>)
      requires Valid()
      modifies this, vault
      ensures Valid() && active == old(active)
      ensures error == PutError(old(sets), name, Normal(entry), now)
      ensures error.Some? ==> sets == old(sets) && vault.file == old(vault.file)
      ensures error == None ==> sets == old(sets)[name := WithEntry(old(sets)[name], Normal(entry), now)]
      ensures error == None ==>
                Stored(vault.crypto, old(vault.Contents()), ScopeOf(project, name), Normal(entry).name, value,
                    Normal(entry).kind == File)
                == Ok(vault.Contents())
    {
      hide ValidEntry, Agree, Sound, HasExpired, Normal, Stored, WithEntry, ScopeOf;
      if name !in sets {
        return Some(NoSuchSet);
      }
      if HasExpired(sets[name], now) {
        return Some(Expired);
      }
      var e := Normal(entry);
      if !ValidEntry(e) {
        return Some(BadEntry);
      }
      var shared := SharesTarget(sets[name].entries, e);
      if shared {
        return Some(SharedTarget);
      }
      SetIsOk(project, sets, active, vault.Contents(), name);
      PutAgrees(vault.crypto, project, sets, active, vault.Contents(), name, e, value, now);
      var failed;
      if e.kind == File {
        failed := vault.SetBytes(ScopeOf(project, name), e.name, value, nonce, now);
      } else {
        failed := vault.Set(ScopeOf(project, name), e.name, value, nonce, now);
      }
      var s := Describe(sets[name], e, now);
      sets := sets[name := s];
      return None;
    }

    static method SharesTarget(entries: seq<Entry>, e: Entry) returns (shared: bool)
      ensures shared == TakesTarget(entries, e)
    {
      for i := 0 to |entries|
        invariant forall k :: 0 <= k < i ==> !(entries[k].name != e.name && entries[k].target == e.target)
      {
        if entries[i].name != e.name && entries[i].target == e.target {
          return true;
        }
      }
      return false;
    }

    /** Replaces or appends the entry, and sorts entries and keys. */
    static method Describe(s: EnvSet, entry: Entry, now: int) returns (after: EnvSet)
      requires SetOk(s.name, s)
      ensures after == WithEntry(s, entry, now)
    {
      hide ValidEntry, ValidName, Less, DistinctTargets, InOrder;
      SetOkMeans(s.name, s);
      var e := entry.(updatedAt := now);
      var i := 0;
      while i < |s.entries| && s.entries[i].name != e.name
        invariant i <= |s.entries|
        invariant forall j :: 0 <= j < i ==> s.entries[j].name != e.name
      {
        i := i + 1;
      }
      assert IndexOf(s.entries, NameOf, e.name) == i;
      var entries;
      if i < |s.entries| {
        e := e.(createdAt := s.entries[i].createdAt);
        entries := s.entries[i := e];
      } else {
        e := e.(createdAt := now);
        entries := s.entries + [e];
      }
      var sorted := SortBy(entries, NameOf);
      SortedIsUpserted(s.entries, NameOf, e, entries, sorted);
      var keys := s.keys;
      if e.name !in keys {
        keys := SortBy(keys + [e.name], Itself);
      }
      KeysAreUpserted(s, e.name, keys);
      after := s.(entries := sorted, keys := keys);
    }

    method Get(name: string, key: string, now: int) returns (r: Vault.Result<Bytes>, error: Option<EnvError>)
      requires Valid()
      ensures error == if name !in sets then Some(NoSuchSet)
                       else if HasExpired(sets[name], now) then Some(Expired)
                       else None
      ensures error == None ==> r == Text(vault.Contents(), ScopeOf(project, name), key)
    {
      if name !in sets {
        return Err(Vault.Missing), Some(NoSuchSet);
      }
      if HasExpired(sets[name], now) {
        return Err(Vault.Missing), Some(Expired);
      }
      r := vault.Get(ScopeOf(project, name), key);
      error := None;
    }

    method GetBytes(name: string, key: string, now: int) returns (r: Vault.Result<Bytes>, error: Option<EnvError>)
      requires Valid()
      ensures error == if name !in sets then Some(NoSuchSet)
                       else if HasExpired(sets[name], now) then Some(Expired)
                       else None
      ensures error == None ==> r == Blob(vault.Contents(), ScopeOf(project, name), key)
    {
      if name !in sets {
        return Err(Vault.Missing), Some(NoSuchSet);
      }
      if HasExpired(sets[name], now) {
        return Err(Vault.Missing), Some(Expired);
      }
      r := vault.GetBytes(ScopeOf(project, name), key);
      error := None;
    }

    method DeleteKey(name: string, key: string, nonce: int, now: int) returns (error: Option<EnvError>)
      requires Valid()
      modifies this, vault
      ensures Valid() && active == old(active)
      ensures error == if name !in old(sets) then Some(NoSuchSet)
                       else if !Storable(key) then Some(Storage(Invalid))
                       else None
      ensures error.Some? ==> sets == old(sets) && vault.file == old(vault.file)
      ensures error == None ==>
                && sets == old(sets)[name := WithoutEntry(old(sets)[name], key)]
                && Deleted(old(vault.Contents()), ScopeOf(project, name), key) == Ok(vault.Contents())
    {
      hide Agree, Sound, ValidName, ScopeOf, WithoutEntry, Storable, PayloadIn, Without;
      if name !in sets {
        return Some(NoSuchSet);
      }
      SetIsOk(project, sets, active, vault.Contents(), name);
      if Storable(key) {
        DeleteAgrees(project, sets, active, vault.Contents(), name, key);
      }
      var failed := vault.Delete(ScopeOf(project, name), key, nonce, now);
      if failed.Some? {
        return Some(Storage(failed.value));
      }
      var s := Undescribe(sets[name], key);
      sets := sets[name := s];
      return None;
    }

    static method Undescribe(s: EnvSet, key: string) returns (after: EnvSet)
      requires SetOk(s.name, s)
      ensures after == WithoutEntry(s, key)
    {
      hide ValidEntry, ValidName, Less, DistinctTargets, InOrder;
      SetOkMeans(s.name, s);
      var keys := RemoveAll(s.keys, key);
      KeysAreRemoved(s, key, keys);
      var entries := s.entries;
      for i := 0 to |entries|
        invariant entries == s.entries
        invariant forall j :: 0 <= j < i ==> entries[j].name != key
      {
        if entries[i].name == key {
          assert IndexOf(s.entries, NameOf, key) == i;
          entries := entries[..i] + entries[i + 1..];
          break;
        }
      }
      after := s.(keys := keys, entries := entries);
    }

    static method RemoveAll(values: seq<string>, unwanted: string) returns (kept: seq<string>)
      ensures kept == Filtered(values, unwanted)
    {
      kept := [];
      for i := 0 to |values|
        invariant kept == Filtered(values[..i], unwanted)
      {
        assert values[..i + 1][..i] == values[..i];
        if values[i] != unwanted {
          kept := kept + [values[i]];
        }
      }
      assert values[..|values|] == values;
    }

    /** All names, sorted. */
    method Names() returns (names: seq<string>)
      ensures InOrder(names, Itself)
      ensures forall n :: n in names <==> n in sets
    {
      var rest := sets.Keys;
      names := [];
      while rest != {}
        invariant rest <= sets.Keys
        invariant forall n :: n in names <==> n in sets && n !in rest
        invariant forall j, k :: 0 <= j < k < |names| ==> names[j] != names[k]
        decreases |rest|
      {
        var n :| n in rest;
        names := names + [n];
        rest := rest - {n};
      }
      var sorted := SortBy(names, Itself);
      SortedDistinct(names, sorted);
      names := sorted;
    }

    /** Deletes the values of a set, then its description; another set becomes active if need be. */
    method Remove(name: string, nonce: int, now: int) returns (error: Option<EnvError>)
      requires Valid()
      modifies this, vault
      ensures Valid()
      ensures error == if name in old(sets) then None else Some(NoSuchSet)
      ensures error.Some? ==> sets == old(sets) && active == old(active) && vault.file == old(vault.file)
      ensures error == None ==> sets == old(sets) - {name} && active == ActiveWithout(old(sets), old(active), name)
      ensures error == None ==> vault.Contents() == old(vault.Contents()) - {ScopeOf(project, name)}
    {
      hide Agree, Sound, SetOk, ScopeOf, Drop, Deleted, ValidName, SameElsewhere, ActiveWithout;
      if name !in sets {
        return Some(NoSuchSet);
      }
      EraseValues(name, nonce, now);
      RemoveAgrees(project, sets, active, vault.Contents(), name, Emptied(sets[name]));
      ScopeGone(old(vault.Contents()), vault.Contents(), ScopeOf(project, name));
      var wasActive := active == name;
      ghost var next := ActiveWithout(sets, active, name);
      sets := sets - {name};
      if wasActive {
        active := "";
        var names := Names();
        if |names| > 0 {
          active := names[0];
        }
        ghost var least := FirstIsLeast(names, sets.Keys);
        assert least == LeastOf(sets.Keys) == active;
      }
      assert active == next by {
        ActiveNext(old(sets), old(active), name);
      }
      return None;
    }

    method EraseValues(name: string, nonce: int, now: int)
      requires Valid() && name in sets
      modifies vault
      ensures vault.Valid()
      ensures Agree(project, sets[name := Emptied(sets[name])], active, vault.Contents())
      ensures SameElsewhere(old(vault.Contents()), vault.Contents(), ScopeOf(project, name))
    {
      hide Agree, Sound, SetOk, ScopeOf, Drop, Deleted, ValidName, SameElsewhere;
      var s := sets[name];
      SetIsOk(project, sets, active, vault.Contents(), name);
      SetOkMeans(name, s);
      DropNothing(sets, name);
      SameElsewhereSelf(vault.Contents(), ScopeOf(project, name));
      for i := 0 to |s.keys|
        invariant vault.Valid()
        invariant Agree(project, sets[name := Drop(s, i)], active, vault.Contents())
        invariant SameElsewhere(old(vault.Contents()), vault.Contents(), ScopeOf(project, name))
      {
        DropAgrees(project, sets, active, vault.Contents(), name, i);
        DeleteElsewhere(vault.Contents(), ScopeOf(project, name), s.keys[i]);
        ghost var before := vault.Contents();
        var failed := vault.Delete(ScopeOf(project, name), s.keys[i], nonce, now);
        SameElsewhereChains(old(vault.Contents()), before, vault.Contents(), ScopeOf(project, name));
      }
      DropEverything(s);
    }

    /** Removes the temporary sets that have expired, in any order. */
    method Prune(nonce: int, now: int) returns (removed: nat)
      requires Valid()
      modifies this, vault
      ensures Valid()
      ensures sets == Surviving(old(sets), now) && active == ActiveAfterPrune(old(sets), old(active), now)
      ensures removed == |old(sets)| - |sets|
    {
      hide Agree, Sound, ActiveAfterPrune, Surviving, ActiveWithout, Pruning, Doomed;
      ghost var before, beforeActive := sets, active;
      ghost var gone := {};
      var rest := sets.Keys;
      removed := 0;
      PruneStart(project, sets, active, vault.Contents());
      while rest != {}
        invariant Valid()
        invariant rest <= before.Keys && gone !! rest && gone <= before.Keys
        invariant forall n :: n in gone <==> n in before && n !in rest && Doomed(before[n], now)
        invariant Pruning(before, beforeActive, sets, active, gone)
        invariant removed == |gone|
        decreases |rest|
      {
        var name :| name in rest;
        rest := rest - {name};
        StillThere(before, beforeActive, sets, active, gone, name);
        if Doomed(sets[name], now) {
          PruneOne(before, beforeActive, sets, active, gone, name);
          var failed := Remove(name, nonce, now);
          gone := gone + {name};
          removed := removed + 1;
        }
      }
      PruneDone(before, beforeActive, sets, active, gone, now);
      SetsLeft(before, beforeActive, sets, active, gone);
    }

    /** Makes a permanent copy of a set under a new name. */
    method Clone(from: string, to: string, nonce: int, now: int) returns (error: Option<EnvError>)
      requires Valid()
      modifies this, vault
      ensures Valid() && active == old(active)
      ensures error == CloneError(old(sets), from, to, now)
      ensures error == None ==> sets == old(sets)[to := CloneOf(old(sets)[from], to, now)]
      ensures error == Some(Expired) ==> sets == old(sets)[to := NewSet(to, false, 0, now)]
      ensures error.Some? && error != Some(Expired) ==> sets == old(sets)
      ensures SameElsewhere(old(vault.Contents()), vault.Contents(), ScopeOf(project, to))
      ensures error == None ==>
                SameValues(old(vault.Contents()), ScopeOf(project, from), vault.Contents(), ScopeOf(project, to),
                    old(sets)[from].entries)
    {
      hide Agree, Sound, SetOk, ScopeOf, ValidName, SameElsewhere, SameValues, HasExpired, CloneOf, FirstEntries,
          Stored, Text, Blob, WithEntry, Less, InOrder;
      SameElsewhereSelf(vault.Contents(), ScopeOf(project, to));
      if from !in sets {
        return Some(NoSuchSet);
      }
      if to in sets {
        return Some(SetExists);
      }
      var source := sets[from];
      ScopesApart(project, from, to);
      SetIsOk(project, sets, active, vault.Contents(), from);
      SetOkMeans(from, source);
      CloneStart(sets, from, to, now);
      HasActive(project, sets, active, vault.Contents(), from);
      var failed := Create(to, false, 0, now);
      if failed.Some? {
        return failed;
      }
      NoValues(old(vault.Contents()), ScopeOf(project, from), ScopeOf(project, to));
      error := CopyEntries(source, old(sets), old(vault.Contents()), from, to, nonce, now);
    }

    /** Copies entry by entry: reads the value from one set, stores it in the other. */
    method CopyEntries(source: EnvSet, ghost before: Sets, ghost beforeContents: Contents, from: string,
        to: string, nonce: int, now: int)
      returns (error: Option<EnvError>)
      requires Valid() && from in before && before[from] == source && from != to && SetOk(from, source)
      requires |source.keys| == |source.entries| && sets == before[to := FirstEntries(source, to, 0, now)]
      requires vault.Contents() == beforeContents && ScopeOf(project, from) != ScopeOf(project, to)
      modifies this, vault
      ensures Valid() && active == old(active)
      ensures error == if HasExpired(source, now) && source.entries != [] then Some(Expired) else None
      ensures sets == before[to := FirstEntries(source, to, if error == None then |source.entries| else 0, now)]
      ensures SameElsewhere(beforeContents, vault.Contents(), ScopeOf(project, to))
      ensures error == None ==>
                SameValues(beforeContents, ScopeOf(project, from), vault.Contents(), ScopeOf(project, to),
                    source.entries)
    {
      hide Agree, Sound, SetOk, ScopeOf, ValidName, SameElsewhere, SameValues, HasExpired, FirstEntries, Stored, Text,
          Blob, WithEntry, Less, InOrder, PutError;
      SetOkMeans(from, source);
      SameElsewhereSelf(vault.Contents(), ScopeOf(project, to));
      NoValues(beforeContents, ScopeOf(project, from), ScopeOf(project, to));
      for i := 0 to |source.entries|
        invariant Valid() && active == old(active)
        invariant i > 0 ==> !HasExpired(source, now)
        invariant sets == before[to := FirstEntries(source, to, i, now)]
        invariant SameElsewhere(beforeContents, vault.Contents(), ScopeOf(project, to))
        invariant SameValues(beforeContents, ScopeOf(project, from), vault.Contents(), ScopeOf(project, to),
            source.entries[..i])
      {
        var entry := source.entries[i];
        EntryIsStored(vault.crypto, vault.Scopes(), project, sets, active, from, i);
        var r;
        if entry.kind == File {
          r, error := GetBytes(from, entry.name, now);
        } else {
          r, error := Get(from, entry.name, now);
        }
        if error.Some? {
          return;
        }
        CloneCanPut(sets, from, source, to, i, now);
        CloneOneMore(from, source, to, i, now);
        ghost var contents := vault.Contents();
        error := PutEntry(to, Unstamped(entry), r.value, nonce, now);
        CopyOneMore(vault.crypto, beforeContents, ScopeOf(project, from), contents, vault.Contents(),
            ScopeOf(project, to), source.entries, i, r.value);
        assert before[to := FirstEntries(source, to, i, now)][to := FirstEntries(source, to, i + 1, now)] ==
            before[to := FirstEntries(source, to, i + 1, now)];
      }
      assert source.entries[..|source.entries|] == source.entries;
      error := None;
    }
  }
}
