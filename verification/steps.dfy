/**
 Properties of the individual reconciliation steps and of `identify` that
 hold on every table: validation, the no-match branch, normalization, the
 insert decision, and which columns a call may change.
 */
module StepFacts {
  import opened Wrappers
  import opened Contacts
  import opened Store
  import opened Distinct
  import opened ContactService

  /**
   Normalization retargets exactly the gathered rows: the elected one becomes
   primary with no link, every other gathered row becomes a secondary linked
   to it, and the rest of the table is untouched.
   */
  lemma ConvertNormalizes(t: Table, cs: seq<Contact>, primaryId: nat)
    requires KeysUnique(t)
    requires forall c :: c in cs ==> c in t
    ensures var r := ConvertSecondariesToPrimary(t, cs, primaryId);
      forall i :: 0 <= i < |t| ==>
        r[i] == if t[i].id in ContactIds(cs) then Retarget(t[i], primaryId) else t[i]
  {
    forall i | 0 <= i < |t| && t[i].id in ContactIds(cs) && t[i].id !in StaleIds(cs, primaryId)
      ensures Retarget(t[i], primaryId) == t[i]
    {
      var c :| c in cs && c.id == t[i].id;
      SameIdSameRow(t, c, t[i]);
    }
  }

  /** After normalization, running it again over rows of the group issues no update. */
  lemma NormalizationSettles(t: Table, cs: seq<Contact>, primaryId: nat, again: seq<Contact>)
    requires KeysUnique(t)
    requires forall c :: c in cs ==> c in t
    requires forall c :: c in again ==>
      c in ConvertSecondariesToPrimary(t, cs, primaryId) && c.id in ContactIds(cs)
    ensures NormalizationWrites(again, primaryId) == []
  {
    var r := ConvertSecondariesToPrimary(t, cs, primaryId);
    ConvertNormalizes(t, cs, primaryId);
    forall c | c in again ensures InTargetState(c, primaryId) {
      var i :| 0 <= i < |r| && r[i] == c;
    }
  }

  /**
   In the match branch every gathered group contains a contact sharing the
   email or the phone, so only the exact-pair test decides.
   */
  lemma NeedsNewContactWhenMatched(existing: seq<Contact>, email: Option<string>, phoneNumber: Option<string>)
    requires exists c :: c in existing && MatchesRequest(c, email, phoneNumber)
    ensures CheckIfNeedsNewContact(existing, email, phoneNumber)
      <==> Supplied(email) && Supplied(phoneNumber) && !HasPair(existing, email, phoneNumber)
  {
    var c :| c in existing && MatchesRequest(c, email, phoneNumber);
    assert HasEmail(existing, email) || HasPhone(existing, phoneNumber);
  }

  /** The match branch always finds the elected contact flagged primary in its re-read chain. */
  lemma ReconcileSucceeds(t: Table, email: Option<string>, phoneNumber: Option<string>, related: seq<Contact>)
    requires |related| > 0
    requires forall c :: c in related ==> c in t && Active(c)
    ensures Reconcile(t, email, phoneNumber, related).1.Ok?
  {
    var primary := DeterminePrimaryContact(related);
    var pid := primary.id;
    var t1 := ConvertSecondariesToPrimary(t, related, pid);
    var t2 :=
      if CheckIfNeedsNewContact(related, email, phoneNumber)
      then Create(t1, email, phoneNumber, Secondary, Some(pid)).0
      else t1;
    var i :| 0 <= i < |t| && t[i] == primary;
    var row := t1[i];
    assert row.linkPrecedence == Primary && row.id == pid && Active(row);
    assert row in t2;
    ChainHoldsPrimary(t2, row);
    PrimaryMakesResponse(GetAllContactsInChain(t2, pid), row);
  }

  /** The chain's `where` selects exactly the active rows of the chain. */
  lemma ChainSelects(primaryId: nat, c: Contact)
    ensures Selected(c, ChainWhere(primaryId)) <==> Active(c) && InChain(c, primaryId)
  {
    var anyOf := ChainWhere(primaryId);
    if c.id == primaryId {
      assert Meets(c, anyOf[0]);
    } else if c.linkedId == Some(primaryId) {
      assert Meets(c, anyOf[1]);
    }
  }

  /** The transaction rolls back: a reconciliation that fails leaves the table as it was. */
  lemma ReconcileRollsBack(t: Table, email: Option<string>, phoneNumber: Option<string>, related: seq<Contact>)
    requires |related| > 0
    ensures Reconcile(t, email, phoneNumber, related).1.Err? ==> Reconcile(t, email, phoneNumber, related).0 == t
  {
  }

  /** Step 6 returns each active row of the chain exactly as often as the table holds it. */
  lemma ChainKeepsRows(t: Table, primaryId: nat)
    ensures forall c :: multiset(GetAllContactsInChain(t, primaryId))[c] ==
                        (if Active(c) && InChain(c, primaryId) then multiset(t)[c] else 0)
  {
    var chain := GetAllContactsInChain(t, primaryId);
    assert chain == FindMany(t, ChainWhere(primaryId));
    FindManyKeepsRows(t, ChainWhere(primaryId));
    forall c ensures multiset(chain)[c] == (if Active(c) && InChain(c, primaryId) then multiset(t)[c] else 0) {
      ChainSelects(primaryId, c);
    }
  }

  lemma ChainHoldsPrimary(t: Table, p: Contact)
    requires p in t && Active(p)
    ensures p in GetAllContactsInChain(t, p.id)
  {
  }

  /** The match branch commits its table, since it always succeeds. */
  lemma ReconcileCommits(t: Table, email: Option<string>, phoneNumber: Option<string>, related: seq<Contact>, t2: Table)
    requires |related| > 0
    requires forall c :: c in related ==> c in t && Active(c)
    requires var pid := DeterminePrimaryContact(related).id;
      var t1 := ConvertSecondariesToPrimary(t, related, pid);
      t2 == if CheckIfNeedsNewContact(related, email, phoneNumber)
            then Create(t1, email, phoneNumber, Secondary, Some(pid)).0 else t1
    ensures Reconcile(t, email, phoneNumber, related) ==
      (t2, FormatResponse(GetAllContactsInChain(t2, DeterminePrimaryContact(related).id)))
  {
    ReconcileSucceeds(t, email, phoneNumber, related);
  }

  lemma PrimaryMakesResponse(cs: seq<Contact>, p: Contact)
    requires p in cs && p.linkPrecedence == Primary
    ensures FormatResponse(cs).Ok?
  {
  }

  /** On a request some active row matches, `identify` runs the match branch on the gathered group. */
  lemma IdentifyMatched(t: Table, email: Option<string>, phoneNumber: Option<string>)
    requires FindMatchingContacts(t, email, phoneNumber) != []
    ensures |GetAllRelatedContacts(t, FindMatchingContacts(t, email, phoneNumber))| > 0
    ensures Identify(t, email, phoneNumber) ==
      Reconcile(t, email, phoneNumber, GetAllRelatedContacts(t, FindMatchingContacts(t, email, phoneNumber)))
  {
    var matching := FindMatchingContacts(t, email, phoneNumber);
    assert matching[0] in matching;
  }

  /**
   `identify` fails exactly when neither field is supplied, and then with
   status 400 and the table untouched; the status-500 path is unreachable.
   */
  lemma IdentifyFailsOnlyOnValidation(t: Table, email: Option<string>, phoneNumber: Option<string>)
    ensures Identify(t, email, phoneNumber).1.Err? <==> !Supplied(email) && !Supplied(phoneNumber)
    ensures Identify(t, email, phoneNumber).1.Err? ==>
      Identify(t, email, phoneNumber).0 == t && Identify(t, email, phoneNumber).1.error.statusCode == 400
  {
    if Supplied(email) || Supplied(phoneNumber) {
      IdentifyAcceptedSucceeds(t, email, phoneNumber);
    }
  }

  lemma IdentifyAcceptedSucceeds(t: Table, email: Option<string>, phoneNumber: Option<string>)
    requires Supplied(email) || Supplied(phoneNumber)
    ensures Identify(t, email, phoneNumber).1.Ok?
  {
    var matching := FindMatchingContacts(t, email, phoneNumber);
    if matching == [] {
      IdentifyUnmatched(t, email, phoneNumber);
      CreatePrimaryReports(t, email, phoneNumber);
    } else {
      IdentifyMatched(t, email, phoneNumber);
      ReconcileSucceeds(t, email, phoneNumber, GetAllRelatedContacts(t, matching));
    }
  }

  /** The list a response reports for a single contact's field. */
  function Listed(v: Option<string>): (r: seq<string>)
    ensures |r| <= 1
    ensures forall x :: x in r <==> Supplied(v) && v == Some(x)
  {
    if Supplied(v) then [v.value] else []
  }

  /** On an accepted request no active row matches, `identify` runs the no-match branch. */
  lemma IdentifyUnmatched(t: Table, email: Option<string>, phoneNumber: Option<string>)
    requires Supplied(email) || Supplied(phoneNumber)
    requires FindMatchingContacts(t, email, phoneNumber) == []
    ensures Identify(t, email, phoneNumber) == CreatePrimary(t, email, phoneNumber)
  {
  }

  /** The no-match branch commits the new primary and reports it alone. */
  lemma CreatePrimaryReports(t: Table, email: Option<string>, phoneNumber: Option<string>)
    ensures var (t1, c) := Create(t, email, phoneNumber, Primary, None);
      CreatePrimary(t, email, phoneNumber) ==
        (t1, Ok(IdentifyResponse(ContactSummary(c.id, Listed(email), Listed(phoneNumber), []))))
  {
    var (t1, c) := Create(t, email, phoneNumber, Primary, None);
    assert c in [c];
    assert Others([c], c.id) == [];
    assert [c.email] + EmailsOf([]) == [email];
    assert [c.phoneNumber] + PhonesOf([]) == [phoneNumber];
    assert CollectDistinct([email]) == Listed(email) by {
      assert [email][..0] == [];
    }
    assert CollectDistinct([phoneNumber]) == Listed(phoneNumber) by {
      assert [phoneNumber][..0] == [];
    }
  }

  /**
   With no active contact sharing a supplied field, `identify` appends one
   primary contact with no link and reports it alone.
   */
  lemma IdentifyNoMatch(t: Table, email: Option<string>, phoneNumber: Option<string>)
    requires Supplied(email) || Supplied(phoneNumber)
    requires forall c :: c in t && Active(c) ==> !MatchesRequest(c, email, phoneNumber)
    ensures var (t', r) := Identify(t, email, phoneNumber);
      && |t'| == |t| + 1 && t'[..|t|] == t
      && t'[|t|].linkPrecedence == Primary && t'[|t|].linkedId == None && Active(t'[|t|])
      && t'[|t|].email == email && t'[|t|].phoneNumber == phoneNumber
      && (forall c :: c in t ==> c.id < t'[|t|].id)
      && r == Ok(IdentifyResponse(ContactSummary(t'[|t|].id, Listed(email), Listed(phoneNumber), [])))
  {
    IdentifyUnmatched(t, email, phoneNumber);
    CreatePrimaryReports(t, email, phoneNumber);
    var (t1, c) := Create(t, email, phoneNumber, Primary, None);
    assert t1[..|t|] == t && t1[|t|] == c;
  }

  /** Two versions of a row that agree on everything but the link fields. */
  predicate SameRecord(a: Contact, b: Contact) {
    && a.id == b.id && a.email == b.email && a.phoneNumber == b.phoneNumber
    && a.createdAt == b.createdAt && a.deleted == b.deleted
  }

  /** A row just inserted for the request: active, with a fresh id, the latest timestamp and the request's fields. */
  predicate InsertedFor(t: Table, c: Contact, email: Option<string>, phoneNumber: Option<string>) {
    && Active(c) && c.email == email && c.phoneNumber == phoneNumber
    && forall x :: x in t ==> x.id < c.id && x.createdAt < c.createdAt
  }

  /**
   `after` differs from `before` only in link fields, plus at most one row
   appended for the request.
   */
  predicate OnlyRelinks(before: Table, after: Table, email: Option<string>, phoneNumber: Option<string>) {
    && |before| <= |after| <= |before| + 1
    && (forall i :: 0 <= i < |before| ==> SameRecord(after[i], before[i]))
    && (|after| == |before| + 1 ==> InsertedFor(before, after[|before|], email, phoneNumber))
  }

  /** The match branch changes only link fields and inserts at most the request's row. */
  lemma ReconcileOnlyRelinks(t: Table, email: Option<string>, phoneNumber: Option<string>, related: seq<Contact>)
    requires |related| > 0
    ensures OnlyRelinks(t, Reconcile(t, email, phoneNumber, related).0, email, phoneNumber)
  {
    var pid := DeterminePrimaryContact(related).id;
    var t1 := ConvertSecondariesToPrimary(t, related, pid);
    assert forall i :: 0 <= i < |t| ==> SameRecord(t1[i], t[i]);
    var t2 := t1;
    if CheckIfNeedsNewContact(related, email, phoneNumber) {
      var (t3, n) := Create(t1, email, phoneNumber, Secondary, Some(pid));
      forall x | x in t ensures x.id < n.id && x.createdAt < n.createdAt {
        var i :| 0 <= i < |t| && t[i] == x;
        assert t1[i] in t1;
      }
      assert t3[|t|] == n;
      t2 := t3;
    }
    assert OnlyRelinks(t, t2, email, phoneNumber);
    assert OnlyRelinks(t, t, email, phoneNumber);
    var outcome := FormatResponse(GetAllContactsInChain(t2, pid));
    assert Reconcile(t, email, phoneNumber, related) == Commit(t, t2, outcome);
  }

  /**
   `identify` never deletes a row and changes nothing but link fields: the
   table grows by at most one row, inserted for the request.
   */
  lemma IdentifyOnlyRelinks(t: Table, email: Option<string>, phoneNumber: Option<string>)
    ensures OnlyRelinks(t, Identify(t, email, phoneNumber).0, email, phoneNumber)
  {
    if Supplied(email) || Supplied(phoneNumber) {
      if FindMatchingContacts(t, email, phoneNumber) == [] {
        IdentifyUnmatched(t, email, phoneNumber);
        CreatePrimaryOnlyAppends(t, email, phoneNumber);
      } else {
        IdentifyMatched(t, email, phoneNumber);
        ReconcileOnlyRelinks(t, email, phoneNumber,
          GetAllRelatedContacts(t, FindMatchingContacts(t, email, phoneNumber)));
      }
    } else {
      assert OnlyRelinks(t, t, email, phoneNumber);
    }
  }

  /** The no-match branch only appends the request's row. */
  lemma CreatePrimaryOnlyAppends(t: Table, email: Option<string>, phoneNumber: Option<string>)
    ensures OnlyRelinks(t, CreatePrimary(t, email, phoneNumber).0, email, phoneNumber)
  {
    CreatePrimaryReports(t, email, phoneNumber);
    var (t1, c) := Create(t, email, phoneNumber, Primary, None);
    assert t1[|t|] == c;
  }

}
