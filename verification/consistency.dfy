/**
 The invariant the reconciliation maintains on the Contact table: every
 active group is a star whose primary is its oldest member.
 */
module Consistency {
  import opened Wrappers
  import opened Contacts
  import opened Store
  import opened ContactService

  /** Ids start at 1, as an auto-incremented key does. */
  predicate IdsPositive(t: Table) {
    forall c :: c in t ==> c.id >= 1
  }

  /** An active primary row with id `id`, created before `before`. */
  predicate HasOlderPrimary(t: Table, id: nat, before: nat) {
    exists p :: p in t && Active(p) && p.linkPrecedence == Primary && p.id == id && p.createdAt < before
  }

  /**
   A primary carries no link; a secondary links to an active primary that is
   older than itself.
   */
  predicate WellLinked(t: Table, c: Contact) {
    match c.linkPrecedence
    case Primary => c.linkedId == None
    case Secondary => c.linkedId.Some? && HasOlderPrimary(t, c.linkedId.value, c.createdAt)
  }

  predicate StarShaped(t: Table) {
    forall c :: c in t && Active(c) ==> WellLinked(t, c)
  }

  /** The table invariant: unique positive ids, rows in creation order, star-shaped groups. */
  predicate Consistent(t: Table) {
    KeysUnique(t) && IdsPositive(t) && StrictlyAscending(t) && StarShaped(t)
  }

  /** A row of the star of the primary `primaryId`: that primary, or a secondary linked to it. */
  predicate InStar(c: Contact, primaryId: nat) {
    || (c.linkPrecedence == Primary && c.id == primaryId)
    || (c.linkPrecedence == Secondary && c.linkedId == Some(primaryId))
  }

  /** A row of the star of one of `roots`. */
  predicate InGroup(c: Contact, roots: set<nat>) {
    if c.linkPrecedence == Primary then c.id in roots
    else c.linkedId.Some? && c.linkedId.value in roots
  }

  /** An active primary row with id `id`. */
  predicate LivePrimary(t: Table, id: nat) {
    exists p :: p in t && Active(p) && p.linkPrecedence == Primary && p.id == id
  }

  /** Every id step 2 treats as a primary is the id of an active primary row. */
  lemma RootsAreLivePrimaries(t: Table, initial: seq<Contact>)
    requires Consistent(t)
    requires forall m :: m in initial ==> m in t && Active(m)
    ensures forall r :: r in PrimaryIds(initial) ==> LivePrimary(t, r)
  {
    forall r | r in PrimaryIds(initial) ensures LivePrimary(t, r) {
      if m :| m in initial && LinkSet(m.linkedId) && m.linkedId.value == r {
        assert WellLinked(t, m);
        assert m.linkPrecedence == Secondary;
      }
    }
  }

  /**
   On a consistent table, step 2 gathers whole stars: an active row is
   gathered exactly when it belongs to the star of one of the roots.
   */
  lemma RelatedIsGroup(t: Table, initial: seq<Contact>, c: Contact)
    requires Consistent(t)
    requires forall m :: m in initial ==> m in t && Active(m)
    requires c in t && Active(c)
    ensures RelatedTo(c, initial) <==> InGroup(c, PrimaryIds(initial))
  {
    var roots := PrimaryIds(initial);
    assert WellLinked(t, c);
    if c.id in ContactIds(initial) {
      var m :| m in initial && m.id == c.id;
      SameIdSameRow(t, m, c);
      if c.linkPrecedence == Secondary {
        var p :| p in t && Active(p) && p.linkPrecedence == Primary && p.id == c.linkedId.value
          && p.createdAt < c.createdAt;
        assert LinkSet(c.linkedId);
      }
    }
    if c.id in roots {
      RootsAreLivePrimaries(t, initial);
      var p :| p in t && Active(p) && p.linkPrecedence == Primary && p.id == c.id;
      SameIdSameRow(t, p, c);
    }
  }

  /** The gathered list of a consistent table, described by stars. */
  lemma GatheredAreGroups(t: Table, initial: seq<Contact>)
    requires Consistent(t)
    requires forall m :: m in initial ==> m in t && Active(m)
    ensures forall c :: c in GetAllRelatedContacts(t, initial) <==>
      c in t && Active(c) && InGroup(c, PrimaryIds(initial))
  {
    forall c | c in t && Active(c)
      ensures RelatedTo(c, initial) <==> InGroup(c, PrimaryIds(initial))
    {
      RelatedIsGroup(t, initial, c);
    }
  }

  /** A secondary is gathered whenever its primary is. */
  lemma SecondaryFollowsPrimary(t: Table, initial: seq<Contact>, c: Contact, p: Contact)
    requires Consistent(t)
    requires forall m :: m in initial ==> m in t && Active(m)
    requires c in t && Active(c) && c.linkPrecedence == Secondary && c.linkedId == Some(p.id)
    requires p in t && Active(p) && p.linkPrecedence == Primary
    ensures p in GetAllRelatedContacts(t, initial) ==> c in GetAllRelatedContacts(t, initial)
  {
    GatheredAreGroups(t, initial);
  }

  /** `t1` is `t` with the gathered rows retargeted at `primaryId` and every other row untouched. */
  predicate Relinked(t: Table, gathered: seq<Contact>, primaryId: nat, t1: Table) {
    && |t1| == |t|
    && forall i :: 0 <= i < |t| ==> t1[i] == if t[i] in gathered then Retarget(t[i], primaryId) else t[i]
  }

  /** On a table with unique keys, normalization retargets exactly the gathered rows. */
  lemma NormalizeGathered(t: Table, gathered: seq<Contact>, primaryId: nat)
    requires KeysUnique(t)
    requires forall c :: c in gathered ==> c in t
    ensures Relinked(t, gathered, primaryId, ConvertSecondariesToPrimary(t, gathered, primaryId))
  {
    var t1 := ConvertSecondariesToPrimary(t, gathered, primaryId);
    forall i | 0 <= i < |t| ensures t[i].id in ContactIds(gathered) <==> t[i] in gathered {
      if t[i].id in ContactIds(gathered) {
        var g :| g in gathered && g.id == t[i].id;
        SameIdSameRow(t, g, t[i]);
      }
    }
    forall i | 0 <= i < |t| && t[i].id in ContactIds(gathered) && t[i].id !in StaleIds(gathered, primaryId)
      ensures Retarget(t[i], primaryId) == t[i]
    {
      var c :| c in gathered && c.id == t[i].id;
      SameIdSameRow(t, c, t[i]);
    }
  }

  /** On a consistent table the rows step 6 re-reads have unique ids. */
  lemma ChainKeysUnique(t: Table, primaryId: nat)
    requires Consistent(t)
    ensures KeysUnique(GetAllContactsInChain(t, primaryId))
  {
    var chain := GetAllContactsInChain(t, primaryId);
    FindManyInTableOrder(t, ChainWhere(primaryId));
    assert StrictlyAscending(chain);
    forall i, j | 0 <= i < j < |chain| ensures chain[i].id != chain[j].id {
      if chain[i].id == chain[j].id {
        assert chain[i] in chain && chain[j] in chain;
        SameIdSameRow(t, chain[i], chain[j]);
      }
    }
  }

  /** The elected contact and the premises every relinked row relies on. */
  predicate ElectedIn(t: Table, initial: seq<Contact>, p: Contact, t1: Table) {
    && Consistent(t)
    && (forall m :: m in initial ==> m in t && Active(m))
    && p in GetAllRelatedContacts(t, initial)
    && (forall c :: c in GetAllRelatedContacts(t, initial) ==> p.createdAt <= c.createdAt)
    && Relinked(t, GetAllRelatedContacts(t, initial), p.id, t1)
  }

  /** A secondary of a gathered primary is gathered too. */
  predicate LinkClosed(t: Table, gathered: seq<Contact>) {
    forall c, q ::
      (c in t && Active(c) && c.linkPrecedence == Secondary && q in gathered
       && q.linkPrecedence == Primary && c.linkedId == Some(q.id)) ==> c in gathered
  }

  /** `ElectedIn`, stated over the gathered list itself. */
  predicate ElectedOver(t: Table, gathered: seq<Contact>, p: Contact, t1: Table) {
    && Consistent(t)
    && (forall c :: c in gathered ==> c in t && Active(c))
    && LinkClosed(t, gathered)
    && p in gathered
    && (forall c :: c in gathered ==> p.createdAt <= c.createdAt)
    && Relinked(t, gathered, p.id, t1)
  }

  lemma ElectedOverGathered(t: Table, initial: seq<Contact>, p: Contact, t1: Table)
    requires ElectedIn(t, initial, p, t1)
    ensures ElectedOver(t, GetAllRelatedContacts(t, initial), p, t1)
  {
    var gathered := GetAllRelatedContacts(t, initial);
    forall c, q | c in t && Active(c) && c.linkPrecedence == Secondary && q in gathered
      && q.linkPrecedence == Primary && c.linkedId == Some(q.id)
      ensures c in gathered
    {
      SecondaryFollowsPrimary(t, initial, c, q);
    }
  }

  /** The elected contact's row becomes an active primary keeping its timestamp. */
  lemma ElectedRow(t: Table, gathered: seq<Contact>, p: Contact, t1: Table, ip: nat)
    requires ElectedOver(t, gathered, p, t1)
    requires ip < |t| && t[ip] == p
    ensures t1[ip] == Retarget(p, p.id) && t1[ip] in t1
    ensures t1[ip].linkPrecedence == Primary && t1[ip].id == p.id && Active(t1[ip])
    ensures t1[ip].createdAt == p.createdAt
  {
  }

  /** A gathered row stays well linked after retargeting. */
  lemma GatheredRowWellLinked(t: Table, gathered: seq<Contact>, p: Contact, t1: Table, i: nat)
    requires ElectedOver(t, gathered, p, t1)
    requires i < |t| && t[i] in gathered
    ensures WellLinked(t1, t1[i])
  {
    if t[i].id != p.id {
      var ip :| 0 <= ip < |t| && t[ip] == p;
      ElectedRow(t, gathered, p, t1, ip);
      assert t[i].createdAt != t[ip].createdAt by {
        assert i < ip || ip < i;
      }
      assert t1[ip].createdAt < t1[i].createdAt;
    }
  }

  /** A row outside the gathered groups keeps its link, and its primary is untouched too. */
  lemma UntouchedRowWellLinked(t: Table, gathered: seq<Contact>, p: Contact, t1: Table, i: nat)
    requires ElectedOver(t, gathered, p, t1)
    requires i < |t| && Active(t[i]) && t[i] !in gathered
    ensures WellLinked(t1, t1[i])
  {
    var c := t[i];
    assert c in t && WellLinked(t, c);
    if c.linkPrecedence == Secondary {
      var q :| q in t && Active(q) && q.linkPrecedence == Primary && q.id == c.linkedId.value
        && q.createdAt < c.createdAt;
      assert q !in gathered;
      var j :| 0 <= j < |t| && t[j] == q;
      assert t1[j] == q && t1[j] in t1;
    }
  }

  /**
   Electing the oldest gathered contact and retargeting the gathered rows at
   it keeps the table consistent.
   */
  lemma RelinkedConsistent(t: Table, initial: seq<Contact>, p: Contact, t1: Table)
    requires ElectedIn(t, initial, p, t1)
    ensures Consistent(t1)
  {
    var gathered := GetAllRelatedContacts(t, initial);
    ElectedOverGathered(t, initial, p, t1);
    RelinkedStarShaped(t, gathered, p, t1);
    RelinkedKeys(t, gathered, p.id, t1);
  }

  lemma RelinkedStarShaped(t: Table, gathered: seq<Contact>, p: Contact, t1: Table)
    requires ElectedOver(t, gathered, p, t1)
    ensures StarShaped(t1)
  {
    forall c | c in t1 && Active(c) ensures WellLinked(t1, c) {
      var i :| 0 <= i < |t1| && t1[i] == c;
      if t[i] in gathered {
        GatheredRowWellLinked(t, gathered, p, t1, i);
      } else {
        UntouchedRowWellLinked(t, gathered, p, t1, i);
      }
    }
  }

  /** Retargeting changes no id and no timestamp. */
  lemma RelinkedKeys(t: Table, gathered: seq<Contact>, primaryId: nat, t1: Table)
    requires KeysUnique(t) && IdsPositive(t) && StrictlyAscending(t)
    requires Relinked(t, gathered, primaryId, t1)
    ensures KeysUnique(t1) && IdsPositive(t1) && StrictlyAscending(t1)
  {
    assert forall i :: 0 <= i < |t| ==> t1[i].id == t[i].id && t1[i].createdAt == t[i].createdAt;
    forall c | c in t1 ensures c.id >= 1 {
      var i :| 0 <= i < |t1| && t1[i] == c;
      assert t[i] in t;
    }
  }

  /** Appending a fresh, newest secondary linked to an older active primary keeps the table consistent. */
  lemma AppendSecondaryConsistent(t: Table, n: Contact)
    requires Consistent(t)
    requires n.linkPrecedence == Secondary && n.linkedId.Some?
    requires HasOlderPrimary(t, n.linkedId.value, n.createdAt)
    requires n.id >= 1 && forall c :: c in t ==> c.id < n.id && c.createdAt < n.createdAt
    ensures Consistent(t + [n])
  {
    AppendConsistent(t, n);
  }

  /** Appending a fresh, newest primary with no link keeps the table consistent. */
  lemma AppendPrimaryConsistent(t: Table, n: Contact)
    requires Consistent(t)
    requires n.linkPrecedence == Primary && n.linkedId == None
    requires n.id >= 1 && forall c :: c in t ==> c.id < n.id && c.createdAt < n.createdAt
    ensures Consistent(t + [n])
  {
    AppendConsistent(t, n);
  }

  lemma AppendConsistent(t: Table, n: Contact)
    requires Consistent(t)
    requires Active(n) ==> WellLinked(t, n)
    requires n.id >= 1 && forall c :: c in t ==> c.id < n.id && c.createdAt < n.createdAt
    ensures Consistent(t + [n])
  {
    var t' := t + [n];
    forall i, j | 0 <= i < j < |t'| ensures t'[i].id != t'[j].id && t'[i].createdAt < t'[j].createdAt {
      if j == |t| {
        assert t'[i] == t[i] && t[i] in t;
      }
    }
    forall c | c in t' && Active(c) ensures WellLinked(t', c) {
      if c != n {
        assert c in t && WellLinked(t, c);
      }
    }
  }
}
