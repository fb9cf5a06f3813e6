/** The store of proposed commands (internal/pending/pending.go). */
module PendingStore {
  import opened KeyedLists
  import opened Options

  datatype Proposal = Proposal(id: string, argv: seq<string>, env: map<string, string>, reason: string,
      proposedAt: string)

  function IdOf(p: Proposal): string {
    p.id
  }

  /** Sorted by identifier, every identifier once. */
  ghost predicate Ordered(ps: seq<Proposal>) {
    InOrder(ps, IdOf)
  }

  function Pending(ps: seq<Proposal>, id: string): Option<Proposal> {
    Find(ps, IdOf, id)
  }

  predicate SameContent(a: Proposal, b: Proposal) {
    a.argv == b.argv && a.env == b.env && a.reason == b.reason
  }

  /** The store after a creation; None: the identifier is taken by other content. */
  function Created(ps: seq<Proposal>, p: Proposal): Option<seq<Proposal>> {
    match Pending(ps, p.id)
    case Some(existing) => if SameContent(existing, p) then Some(ps) else None
    case None => Some(Upserted(ps, IdOf, p))
  }

  class Store {
    var proposals: seq<Proposal>

    ghost predicate Valid()
      reads this
    {
      Ordered(proposals)
    }

    constructor ()
      ensures Valid() && proposals == []
    {
      proposals := [];
    }

    method Lookup(id: string) returns (p: Option<Proposal>)
      ensures p == Pending(proposals, id)
    {
      for i := 0 to |proposals|
        invariant forall j :: 0 <= j < i ==> proposals[j].id != id
      {
        if proposals[i].id == id {
          assert IndexOf(proposals, IdOf, id) == i;
          return Some(proposals[i]);
        }
      }
      return None;
    }

    /** Replaces in place; a new proposal is appended, and all are sorted. Stores in order stay in order. */
    method Upsert(p: Proposal)
      modifies this
      ensures if Has(old(proposals), IdOf, p.id)
              then proposals == old(proposals)[IndexOf(old(proposals), IdOf, p.id) := p]
              else multiset(proposals) == multiset(old(proposals) + [p]) && InWeakOrder(proposals, IdOf)
      ensures old(Valid()) ==> Valid() && proposals == Upserted(old(proposals), IdOf, p)
    {
      for i := 0 to |proposals|
        invariant proposals == old(proposals)
        invariant forall j :: 0 <= j < i ==> proposals[j].id != p.id
      {
        if proposals[i].id == p.id {
          assert IndexOf(proposals, IdOf, p.id) == i;
          OrderedUpsert(proposals, p);
          proposals := proposals[i := p];
          return;
        }
      }
      OrderedUpsert(proposals, p);
      var sorted := SortBy(proposals + [p], IdOf);
      if Valid() {
        SortedIsInserted(proposals, IdOf, p, sorted);
      }
      proposals := sorted;
    }

    /** Takes the first proposal with the identifier out; the others keep their places. */
    method Remove(id: string) returns (p: Option<Proposal>)
      modifies this
      ensures p == Pending(old(proposals), id)
      ensures proposals == Removed(old(proposals), IdOf, id)
      ensures old(Valid()) ==> Valid()
    {
      if Valid() {
        RemoveMeans(proposals, IdOf, id, id);
      }
      for i := 0 to |proposals|
        invariant proposals == old(proposals)
        invariant forall j :: 0 <= j < i ==> proposals[j].id != id
      {
        if proposals[i].id == id {
          assert IndexOf(proposals, IdOf, id) == i;
          p := Some(proposals[i]);
          proposals := proposals[..i] + proposals[i + 1..];
          return;
        }
      }
      return None;
    }

    /** Creates a proposal whose identifier then stands for this content. */
    method Create(p: Proposal) returns (result: Option<Proposal>)
      modifies this
      ensures match Pending(old(proposals), p.id)
              case Some(existing) =>
                proposals == old(proposals)
                && result == if existing.argv == p.argv && existing.env == p.env && existing.reason == p.reason
                             then Some(existing)
                             else None
              case None =>
                result == Some(p) && multiset(proposals) == multiset(old(proposals) + [p])
                    && InWeakOrder(proposals, IdOf)
      ensures result.Some? ==>
                && result.value.id == p.id && result.value.argv == p.argv
                && result.value.env == p.env && result.value.reason == p.reason
      ensures old(Valid()) ==>
                && Valid()
                && (result.Some? <==> Created(old(proposals), p).Some?)
                && proposals == (if result.Some? then Created(old(proposals), p).value else old(proposals))
                && (result.Some? ==> Pending(proposals, p.id) == result)
    {
      OrderedUpsert(proposals, p);
      var existing := Lookup(p.id);
      if existing.Some? {
        if existing.value.argv != p.argv || existing.value.env != p.env || existing.value.reason != p.reason {
          return None;
        }
        return existing;
      }
      Upsert(p);
      return Some(p);
    }
  }

  lemma OrderedUpsert(ps: seq<Proposal>, p: Proposal)
    ensures Ordered(ps) ==>
              Ordered(Upserted(ps, IdOf, p)) && Pending(Upserted(ps, IdOf, p), p.id) == Some(p)
  {
    if Ordered(ps) {
      UpsertMeans(ps, IdOf, p, p.id);
    }
  }
}
