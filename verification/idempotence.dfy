/**
 On a consistent table `identify` reconciles the request's group into one
 star, keeps the table consistent, and a repeated identical call changes
 nothing and returns the same response.
 */
module Idempotence {
  import opened Wrappers
  import opened Contacts
  import opened Store
  import opened ContactService
  import opened StepFacts
  import opened Consistency
  import opened Distinct
  import opened ResponseFacts

  /**
   The table already records the request inside the star of `primaryId`:
   some active row matches, every active matching row belongs to that star,
   and when both fields are supplied the star holds a row with exactly that
   pair.
   */
  predicate Settled(t: Table, email: Option<string>, phoneNumber: Option<string>, primaryId: nat) {
    && (exists c :: c in t && Active(c) && MatchesRequest(c, email, phoneNumber))
    && (forall c :: c in t && Active(c) && MatchesRequest(c, email, phoneNumber) ==> InStar(c, primaryId))
    && (Supplied(email) && Supplied(phoneNumber) ==>
          exists c :: c in t && Active(c) && InStar(c, primaryId) && c.email == email && c.phoneNumber == phoneNumber)
  }

  /** Rows of a consistent table with different timestamps have different ids. */
  lemma DifferentTimesDifferentIds(t: Table, a: Contact, b: Contact)
    requires KeysUnique(t) && a in t && b in t && a.createdAt != b.createdAt
    ensures a.id != b.id
  {
    var i :| 0 <= i < |t| && t[i] == a;
    var j :| 0 <= j < |t| && t[j] == b;
    assert i != j;
    assert i < j || j < i;
  }

  /** Contacts that all lie in one star name only that star's primary as a root. */
  lemma StarRoots(t: Table, initial: seq<Contact>, primaryId: nat)
    requires Consistent(t)
    requires forall m :: m in initial ==> m in t && Active(m) && InStar(m, primaryId)
    ensures PrimaryIds(initial) <= {primaryId}
  {
    forall r | r in PrimaryIds(initial) ensures r == primaryId {
      if m :| m in initial && LinkSet(m.linkedId) && m.linkedId.value == r {
        assert WellLinked(t, m);
      }
    }
  }

  /** A contact of a star of a consistent table names that star's primary as a root. */
  lemma StarMemberRoot(t: Table, initial: seq<Contact>, primaryId: nat, c: Contact)
    requires Consistent(t)
    requires c in initial && c in t && Active(c) && InStar(c, primaryId)
    ensures primaryId in PrimaryIds(initial)
  {
    assert WellLinked(t, c);
    if c.linkPrecedence == Secondary {
      var p :| p in t && Active(p) && p.linkPrecedence == Primary && p.id == primaryId
        && p.createdAt < c.createdAt;
      assert LinkSet(c.linkedId);
    }
  }

  /** Step 2 widens contacts drawn from one star to exactly that star. */
  lemma StarGathered(t: Table, initial: seq<Contact>, primaryId: nat, c: Contact)
    requires Consistent(t)
    requires forall m :: m in initial ==> m in t && Active(m) && InStar(m, primaryId)
    requires c in initial
    ensures forall x :: x in GetAllRelatedContacts(t, initial) <==> x in t && Active(x) && InStar(x, primaryId)
  {
    var roots := PrimaryIds(initial);
    StarRoots(t, initial, primaryId);
    StarMemberRoot(t, initial, primaryId, c);
    GatheredAreGroups(t, initial);
    forall x ensures InGroup(x, roots) <==> InStar(x, primaryId) {
      if x.linkPrecedence == Primary {
        assert x.id in roots <==> x.id == primaryId;
      } else if x.linkedId.Some? {
        assert x.linkedId.value in roots <==> x.linkedId.value == primaryId;
      }
    }
  }

  /** For a settled request, step 2 gathers exactly the star of `primaryId`. */
  lemma SettledGroupIsStar(t: Table, email: Option<string>, phoneNumber: Option<string>, primaryId: nat)
    requires Consistent(t) && Settled(t, email, phoneNumber, primaryId)
    ensures forall c :: c in GetAllRelatedContacts(t, FindMatchingContacts(t, email, phoneNumber)) <==>
      c in t && Active(c) && InStar(c, primaryId)
  {
    var matching := FindMatchingContacts(t, email, phoneNumber);
    var c :| c in t && Active(c) && MatchesRequest(c, email, phoneNumber);
    StarGathered(t, matching, primaryId, c);
  }

  /**
   In a consistent table the rows of a star already agree with electing its
   primary, and that primary is the star's oldest row.
   */
  lemma StarIsElected(t: Table, primaryId: nat, group: seq<Contact>)
    requires Consistent(t) && |group| > 0
    requires forall c :: c in group <==> c in t && Active(c) && InStar(c, primaryId)
    ensures DeterminePrimaryContact(group).id == primaryId
    ensures forall c :: c in group ==> InTargetState(c, primaryId)
  {
    forall c | c in group && c.linkPrecedence == Secondary
      ensures c.id != primaryId
      ensures exists q :: q in group && q.createdAt < c.createdAt
    {
      assert WellLinked(t, c);
      var q :| q in t && Active(q) && q.linkPrecedence == Primary && q.id == primaryId
        && q.createdAt < c.createdAt;
      assert InStar(q, primaryId);
      DifferentTimesDifferentIds(t, q, c);
    }
    forall c | c in group && c.linkPrecedence == Primary ensures c.linkedId == None {
      assert WellLinked(t, c);
    }
    var p := DeterminePrimaryContact(group);
    assert p.linkPrecedence == Primary;
  }

  /** Step 4 on a whole star of a consistent table elects its primary and writes nothing. */
  lemma StarLeftAlone(t: Table, primaryId: nat, group: seq<Contact>)
    requires Consistent(t) && |group| > 0
    requires forall c :: c in group <==> c in t && Active(c) && InStar(c, primaryId)
    ensures DeterminePrimaryContact(group).id == primaryId
    ensures ConvertSecondariesToPrimary(t, group, primaryId) == t
  {
    StarIsElected(t, primaryId, group);
    assert StaleIds(group, primaryId) == {};
    var t1 := ConvertSecondariesToPrimary(t, group, primaryId);
    assert forall i :: 0 <= i < |t| ==> t1[i] == t[i];
  }

  /** Step 5 inserts nothing for a request settled in the gathered star. */
  lemma SettledNeedsNoInsert(t: Table, email: Option<string>, phoneNumber: Option<string>, primaryId: nat,
                             group: seq<Contact>, c: Contact)
    requires Settled(t, email, phoneNumber, primaryId)
    requires forall x :: x in group <==> x in t && Active(x) && InStar(x, primaryId)
    requires c in group && MatchesRequest(c, email, phoneNumber)
    ensures !CheckIfNeedsNewContact(group, email, phoneNumber)
  {
    NeedsNewContactWhenMatched(group, email, phoneNumber);
    if Supplied(email) && Supplied(phoneNumber) {
      var w :| w in t && Active(w) && InStar(w, primaryId) && w.email == email && w.phoneNumber == phoneNumber;
      assert w in group;
    }
  }

  /**
   A settled request is a read-only query: `identify` leaves the table as it
   is and reports the chain of `primaryId`.
   */
  lemma SettledIsReadOnly(t: Table, email: Option<string>, phoneNumber: Option<string>, primaryId: nat)
    requires Consistent(t) && Settled(t, email, phoneNumber, primaryId)
    ensures Identify(t, email, phoneNumber) == (t, FormatResponse(GetAllContactsInChain(t, primaryId)))
  {
    var c :| c in t && Active(c) && MatchesRequest(c, email, phoneNumber);
    var matching := FindMatchingContacts(t, email, phoneNumber);
    assert c in matching;
    var group := GetAllRelatedContacts(t, matching);
    SettledGroupIsStar(t, email, phoneNumber, primaryId);
    assert InStar(c, primaryId);
    StarLeftAlone(t, primaryId, group);
    SettledNeedsNoInsert(t, email, phoneNumber, primaryId, group, c);
    IdentifyMatched(t, email, phoneNumber);
  }

  /** A row of the star of `primaryId` holding exactly the given pair. */
  predicate StarRecords(t: Table, primaryId: nat, email: Option<string>, phoneNumber: Option<string>) {
    exists c :: c in t && Active(c) && InStar(c, primaryId) && c.email == email && c.phoneNumber == phoneNumber
  }

  /**
   The state after the election of `primaryId` and step 4: the table is
   consistent, the primary is live, every active row sharing a field with
   the request lies in its star, and every gathered pair is recorded there.
   */
  predicate Normalized(t1: Table, primaryId: nat, email: Option<string>, phoneNumber: Option<string>,
                       related: seq<Contact>) {
    && Consistent(t1) && LivePrimary(t1, primaryId)
    && (forall c :: c in t1 && Active(c) && MatchesRequest(c, email, phoneNumber) ==> InStar(c, primaryId))
    && (forall g :: g in related ==> StarRecords(t1, primaryId, g.email, g.phoneNumber))
  }

  /** A row whose link fields agree with the election of `primaryId` lies in its star. */
  lemma TargetIsInStar(c: Contact, primaryId: nat)
    requires InTargetState(c, primaryId)
    ensures InStar(c, primaryId)
  {
  }

  /** After step 4 the active rows sharing a field with the request lie in the elected star. */
  lemma ElectedMatchesInStar(t: Table, gathered: seq<Contact>, primaryId: nat, t1: Table,
                             email: Option<string>, phoneNumber: Option<string>)
    requires Relinked(t, gathered, primaryId, t1)
    requires forall c :: c in t && Active(c) && MatchesRequest(c, email, phoneNumber) ==> c in gathered
    ensures forall c :: c in t1 && Active(c) && MatchesRequest(c, email, phoneNumber) ==> InStar(c, primaryId)
  {
    forall c | c in t1 && Active(c) && MatchesRequest(c, email, phoneNumber) ensures InStar(c, primaryId) {
      var i :| 0 <= i < |t1| && t1[i] == c;
      var before := t[i];
      assert before in t && Active(before) && MatchesRequest(before, email, phoneNumber);
      assert c == Retarget(before, primaryId);
      TargetIsInStar(c, primaryId);
    }
  }

  /** After step 4 every gathered pair is recorded in the elected star. */
  lemma ElectedRecords(t: Table, gathered: seq<Contact>, primaryId: nat, t1: Table)
    requires Relinked(t, gathered, primaryId, t1)
    requires forall g :: g in gathered ==> g in t && Active(g)
    ensures forall g :: g in gathered ==> StarRecords(t1, primaryId, g.email, g.phoneNumber)
  {
    forall g | g in gathered ensures StarRecords(t1, primaryId, g.email, g.phoneNumber) {
      var i :| 0 <= i < |t| && t[i] == g;
      var c := t1[i];
      assert c == Retarget(g, primaryId) && c in t1;
      TargetIsInStar(c, primaryId);
    }
  }

  /** The election and step 4 of a matched request reach the `Normalized` state. */
  lemma NormalizedGroup(t: Table, email: Option<string>, phoneNumber: Option<string>) returns (primaryId: nat)
    requires Consistent(t) && FindMatchingContacts(t, email, phoneNumber) != []
    ensures var related := GetAllRelatedContacts(t, FindMatchingContacts(t, email, phoneNumber));
      && |related| > 0 && primaryId == DeterminePrimaryContact(related).id
      && (forall c :: c in related ==> c in t && Active(c))
      && Normalized(ConvertSecondariesToPrimary(t, related, primaryId), primaryId, email, phoneNumber, related)
  {
    var matching := FindMatchingContacts(t, email, phoneNumber);
    assert matching[0] in matching;
    var related := GetAllRelatedContacts(t, matching);
    var p := DeterminePrimaryContact(related);
    primaryId := p.id;
    var t1 := ConvertSecondariesToPrimary(t, related, primaryId);
    NormalizeGathered(t, related, primaryId);
    assert ElectedIn(t, matching, p, t1);
    RelinkedConsistent(t, matching, p, t1);
    ElectedOverGathered(t, matching, p, t1);
    var ip :| 0 <= ip < |t| && t[ip] == p;
    ElectedRow(t, related, p, t1, ip);
    ElectedMatchesInStar(t, related, primaryId, t1, email, phoneNumber);
    ElectedRecords(t, related, primaryId, t1);
  }

  /**
   The first call on a matched request leaves a consistent table in which
   the request is settled in the elected star, and reports that star.
   */
  lemma FirstCallMatched(t: Table, email: Option<string>, phoneNumber: Option<string>) returns (primaryId: nat)
    requires Consistent(t) && FindMatchingContacts(t, email, phoneNumber) != []
    ensures var (t', r) := Identify(t, email, phoneNumber);
      && Consistent(t') && Settled(t', email, phoneNumber, primaryId)
      && r == FormatResponse(GetAllContactsInChain(t', primaryId))
  {
    primaryId := NormalizedGroup(t, email, phoneNumber);
    var matching := FindMatchingContacts(t, email, phoneNumber);
    assert matching[0] in matching;
    var related := GetAllRelatedContacts(t, matching);
    var t1 := ConvertSecondariesToPrimary(t, related, primaryId);
    var t2 := SettleNormalized(t1, primaryId, email, phoneNumber, related, matching[0]);
    ReconcileCommits(t, email, phoneNumber, related, t2);
    IdentifyMatched(t, email, phoneNumber);
  }

  /** Step 5 on a normalized table settles the request. */
  lemma SettleNormalized(t1: Table, primaryId: nat, email: Option<string>, phoneNumber: Option<string>,
                         related: seq<Contact>, m: Contact) returns (t2: Table)
    requires Normalized(t1, primaryId, email, phoneNumber, related)
    requires m in related && MatchesRequest(m, email, phoneNumber)
    ensures t2 == if CheckIfNeedsNewContact(related, email, phoneNumber)
                  then Create(t1, email, phoneNumber, Secondary, Some(primaryId)).0 else t1
    ensures Consistent(t2) && Settled(t2, email, phoneNumber, primaryId)
  {
    assert StarRecords(t1, primaryId, m.email, m.phoneNumber);
    NeedsNewContactWhenMatched(related, email, phoneNumber);
    if CheckIfNeedsNewContact(related, email, phoneNumber) {
      t2 := SettleByInsert(t1, primaryId, email, phoneNumber, related);
    } else {
      if Supplied(email) && Supplied(phoneNumber) {
        var g :| g in related && g.email == email && g.phoneNumber == phoneNumber;
        assert StarRecords(t1, primaryId, g.email, g.phoneNumber);
      }
      t2 := t1;
    }
  }

  /** Inserting the request's pair as a secondary of a live primary settles it. */
  lemma SettleByInsert(t1: Table, primaryId: nat, email: Option<string>, phoneNumber: Option<string>,
                       related: seq<Contact>) returns (t2: Table)
    requires Normalized(t1, primaryId, email, phoneNumber, related)
    requires exists c :: c in t1 && Active(c) && MatchesRequest(c, email, phoneNumber)
    ensures t2 == Create(t1, email, phoneNumber, Secondary, Some(primaryId)).0
    ensures Consistent(t2) && Settled(t2, email, phoneNumber, primaryId)
  {
    var (t2', n) := Create(t1, email, phoneNumber, Secondary, Some(primaryId));
    t2 := t2';
    var q :| q in t1 && Active(q) && q.linkPrecedence == Primary && q.id == primaryId;
    assert HasOlderPrimary(t1, primaryId, n.createdAt);
    AppendSecondaryConsistent(t1, n);
    assert n in t2 && InStar(n, primaryId);
    forall c | c in t2 && Active(c) && MatchesRequest(c, email, phoneNumber) ensures InStar(c, primaryId) {
      assert c in t1 || c == n;
    }
  }

  /**
   In a consistent table, the chain of a primary appended after every other
   row holds that row alone: no older row carries its id or links to it.
   */
  lemma ChainOfNewPrimary(t: Table, c: Contact)
    requires Consistent(t) && Consistent(t + [c])
    requires Active(c) && forall x :: x in t ==> x.id < c.id
    ensures GetAllContactsInChain(t + [c], c.id) == [c]
  {
    var anyOf := ChainWhere(c.id);
    forall x | x in t ensures !Selected(x, anyOf) {
      if Active(x) {
        assert WellLinked(t, x);
        assert x.linkedId != Some(c.id);
        assert !Meets(x, anyOf[0]) && !Meets(x, anyOf[1]);
      }
    }
    assert Filter(t, anyOf) == [];
    assert Meets(c, anyOf[0]);
    FilterAppend(t, c, anyOf);
    FindManyInTableOrder(t + [c], anyOf);
  }

  /**
   The first call on a request nothing matches appends one primary, keeps
   the table consistent, settles the request in the new star and reports it.
   */
  lemma FirstCallUnmatched(t: Table, email: Option<string>, phoneNumber: Option<string>) returns (primaryId: nat)
    requires Consistent(t) && (Supplied(email) || Supplied(phoneNumber))
    requires FindMatchingContacts(t, email, phoneNumber) == []
    ensures var (t', r) := Identify(t, email, phoneNumber);
      && Consistent(t') && Settled(t', email, phoneNumber, primaryId)
      && r == FormatResponse(GetAllContactsInChain(t', primaryId))
  {
    var (t2, c) := Create(t, email, phoneNumber, Primary, None);
    primaryId := c.id;
    AppendPrimaryConsistent(t, c);
    assert c in t2 && MatchesRequest(c, email, phoneNumber);
    forall x | x in t2 && Active(x) && MatchesRequest(x, email, phoneNumber) ensures InStar(x, primaryId) {
      assert x in t || x == c;
    }
    assert Settled(t2, email, phoneNumber, primaryId);
    ChainOfNewPrimary(t, c);
    assert FormatResponse([c]).Ok? by {
      assert c in [c];
    }
    assert Identify(t, email, phoneNumber) == CreatePrimary(t, email, phoneNumber);
  }

  /**
   Any accepted first call on a consistent table settles the request in
   some star and reports that star's chain.
   */
  lemma FirstCall(t: Table, email: Option<string>, phoneNumber: Option<string>) returns (primaryId: nat)
    requires Consistent(t) && (Supplied(email) || Supplied(phoneNumber))
    ensures var (t', r) := Identify(t, email, phoneNumber);
      && Consistent(t') && Settled(t', email, phoneNumber, primaryId)
      && r == FormatResponse(GetAllContactsInChain(t', primaryId))
  {
    if FindMatchingContacts(t, email, phoneNumber) == [] {
      primaryId := FirstCallUnmatched(t, email, phoneNumber);
    } else {
      primaryId := FirstCallMatched(t, email, phoneNumber);
    }
  }

  /** `identify` keeps a consistent table consistent, whether it succeeds or not. */
  lemma IdentifyPreservesConsistency(t: Table, email: Option<string>, phoneNumber: Option<string>)
    requires Consistent(t)
    ensures Consistent(Identify(t, email, phoneNumber).0)
  {
    if Supplied(email) || Supplied(phoneNumber) {
      var _ := FirstCall(t, email, phoneNumber);
    }
  }

  /**
   Repeating a request is harmless: on a consistent table the second
   identical call writes nothing and returns the first call's response.
   */
  lemma IdentifyIdempotent(t: Table, email: Option<string>, phoneNumber: Option<string>)
    requires Consistent(t)
    ensures Identify(Identify(t, email, phoneNumber).0, email, phoneNumber) == Identify(t, email, phoneNumber)
  {
    if Supplied(email) || Supplied(phoneNumber) {
      var primaryId := FirstCall(t, email, phoneNumber);
      SettledIsReadOnly(Identify(t, email, phoneNumber).0, email, phoneNumber, primaryId);
    }
  }

  /**
   On a consistent table the chain of a live primary is reported
   successfully, under that primary's id.
   */
  lemma ChainReportsPrimary(t: Table, primaryId: nat)
    requires Consistent(t) && LivePrimary(t, primaryId)
    ensures FormatResponse(GetAllContactsInChain(t, primaryId)).Ok?
    ensures FormatResponse(GetAllContactsInChain(t, primaryId)).value.contact.primaryContactId == primaryId
  {
    var chain := GetAllContactsInChain(t, primaryId);
    var p :| p in t && Active(p) && p.linkPrecedence == Primary && p.id == primaryId;
    assert p in chain;
    var k := FindPrimary(chain).value;
    assert chain[k] in chain;
    assert WellLinked(t, chain[k]);
  }

  /** A settled request's star has a live primary. */
  lemma SettledStarIsLive(t: Table, email: Option<string>, phoneNumber: Option<string>, primaryId: nat)
    requires Consistent(t) && Settled(t, email, phoneNumber, primaryId)
    ensures LivePrimary(t, primaryId)
  {
    var c :| c in t && Active(c) && MatchesRequest(c, email, phoneNumber);
    assert InStar(c, primaryId) && WellLinked(t, c);
  }

  /**
   An accepted request on a consistent table succeeds, and afterwards every
   active contact sharing a field with it belongs to the star of the primary
   the response names.
   */
  lemma IdentifyReconciles(t: Table, email: Option<string>, phoneNumber: Option<string>)
    requires Consistent(t) && (Supplied(email) || Supplied(phoneNumber))
    ensures var (t', r) := Identify(t, email, phoneNumber);
      && r.Ok? && LivePrimary(t', r.value.contact.primaryContactId)
      && forall c :: c in t' && Active(c) && MatchesRequest(c, email, phoneNumber) ==>
           InStar(c, r.value.contact.primaryContactId)
  {
    var primaryId := FirstCall(t, email, phoneNumber);
    var t2 := Identify(t, email, phoneNumber).0;
    SettledStarIsLive(t2, email, phoneNumber, primaryId);
    ChainReportsPrimary(t2, primaryId);
  }

  /** On a consistent table a successful call lists each secondary id once. */
  lemma IdentifyListsSecondariesOnce(t: Table, email: Option<string>, phoneNumber: Option<string>)
    requires Consistent(t)
    ensures var r := Identify(t, email, phoneNumber).1;
      r.Ok? ==> NoDuplicates(r.value.contact.secondaryContactIds)
  {
    if Supplied(email) || Supplied(phoneNumber) {
      var primaryId := FirstCall(t, email, phoneNumber);
      var t2 := Identify(t, email, phoneNumber).0;
      ChainKeysUnique(t2, primaryId);
      FormatResponseListsOnce(GetAllContactsInChain(t2, primaryId));
    }
  }
}
