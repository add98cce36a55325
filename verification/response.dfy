/**
 Properties of response shaping: which contact is reported as primary, and
 the contents and order of the email, phone-number and secondary-id lists.
 */
module ResponseFacts {
  import opened Wrappers
  import opened Contacts
  import opened Store
  import opened Distinct
  import opened ContactService

  /** `k` is the position of the first primary-flagged contact of `cs`. */
  predicate FirstPrimaryAt(cs: seq<Contact>, k: nat) {
    && k < |cs|
    && cs[k].linkPrecedence == Primary
    && forall j :: 0 <= j < k ==> cs[j].linkPrecedence != Primary
  }

  lemma FindPrimaryFirst(cs: seq<Contact>, k: nat)
    requires FirstPrimaryAt(cs, k)
    ensures FindPrimary(cs) == Some(k)
  {
    assert cs[k] in cs;
    var f := FindPrimary(cs);
    assert f.Some?;
    assert !(f.value < k) && !(k < f.value);
  }

  /** The emails the response reads, in order: the primary's, then every other contact's. */
  function EmailStream(cs: seq<Contact>, p: Contact): seq<Option<string>> {
    [p.email] + EmailsOf(Others(cs, p.id))
  }

  /** The phone numbers the response reads, in order: the primary's, then every other contact's. */
  function PhoneStream(cs: seq<Contact>, p: Contact): seq<Option<string>> {
    [p.phoneNumber] + PhonesOf(Others(cs, p.id))
  }

  /** A contact whose fields the response reports: the primary, or one with a different id. */
  predicate Reporting(c: Contact, cs: seq<Contact>, p: Contact) {
    c in cs && (c == p || c.id != p.id)
  }

  /** The contacts read after the primary: each non-primary contact as often as listed, in list order. */
  lemma {:induction false} OthersKeepsRows(cs: seq<Contact>, primaryId: nat)
    ensures forall c :: multiset(Others(cs, primaryId))[c] == if c.id != primaryId then multiset(cs)[c] else 0
    ensures OrderedFrom(cs, Others(cs, primaryId))
  {
    if cs != [] {
      var head := if cs[0].id != primaryId then [cs[0]] else [];
      var rest := Others(cs[1..], primaryId);
      assert Others(cs, primaryId) == head + rest;
      assert cs == [cs[0]] + cs[1..];
      OthersKeepsRows(cs[1..], primaryId);
      ConsOrderedFrom(cs, head, rest);
    }
  }

  lemma EmailStreamContents(cs: seq<Contact>, p: Contact, x: string)
    requires p in cs
    ensures Some(x) in EmailStream(cs, p) <==> exists c :: Reporting(c, cs, p) && c.email == Some(x)
  {
    var others := Others(cs, p.id);
    var es := EmailsOf(others);
    assert EmailStream(cs, p) == [p.email] + es;
    if Some(x) in es {
      var i :| 0 <= i < |es| && es[i] == Some(x);
      assert others[i] in others;
      assert Reporting(others[i], cs, p);
    }
    if p.email == Some(x) {
      assert Reporting(p, cs, p);
    }
    if c :| Reporting(c, cs, p) && c.email == Some(x) {
      if c != p {
        var i :| 0 <= i < |others| && others[i] == c;
        assert es[i] == Some(x);
      }
    }
  }

  lemma PhoneStreamContents(cs: seq<Contact>, p: Contact, x: string)
    requires p in cs
    ensures Some(x) in PhoneStream(cs, p) <==> exists c :: Reporting(c, cs, p) && c.phoneNumber == Some(x)
  {
    var others := Others(cs, p.id);
    var ps := PhonesOf(others);
    assert PhoneStream(cs, p) == [p.phoneNumber] + ps;
    if Some(x) in ps {
      var i :| 0 <= i < |ps| && ps[i] == Some(x);
      assert others[i] in others;
      assert Reporting(others[i], cs, p);
    }
    if p.phoneNumber == Some(x) {
      assert Reporting(p, cs, p);
    }
    if c :| Reporting(c, cs, p) && c.phoneNumber == Some(x) {
      if c != p {
        var i :| 0 <= i < |others| && others[i] == c;
        assert ps[i] == Some(x);
      }
    }
  }

  /**
   The response's emails: no duplicates and no empty value, exactly the
   non-empty emails of the reported contacts, the primary's first, then in
   the order in which they are first seen.
   */
  lemma FormatResponseEmails(cs: seq<Contact>, k: nat)
    requires FirstPrimaryAt(cs, k)
    ensures FormatResponse(cs).Ok?
    ensures var emails := FormatResponse(cs).value.contact.emails;
      && NoDuplicates(emails)
      && (forall x :: x in emails ==> x != "")
      && (forall x :: x in emails <==> x != "" && exists c :: Reporting(c, cs, cs[k]) && c.email == Some(x))
      && (Supplied(cs[k].email) ==> |emails| > 0 && emails[0] == cs[k].email.value)
      && FirstSeenOrder(EmailStream(cs, cs[k]), emails)
  {
    FindPrimaryFirst(cs, k);
    var vs := EmailStream(cs, cs[k]);
    assert cs[k] in cs;
    forall x ensures Some(x) in vs <==> exists c :: Reporting(c, cs, cs[k]) && c.email == Some(x) {
      EmailStreamContents(cs, cs[k], x);
    }
    CollectDistinctFirstSeenOrder(vs);
    if Supplied(cs[k].email) {
      CollectDistinctHead(vs);
    }
  }

  /** The same guarantees for the response's phone numbers. */
  lemma FormatResponsePhones(cs: seq<Contact>, k: nat)
    requires FirstPrimaryAt(cs, k)
    ensures FormatResponse(cs).Ok?
    ensures var phones := FormatResponse(cs).value.contact.phoneNumbers;
      && NoDuplicates(phones)
      && (forall x :: x in phones ==> x != "")
      && (forall x :: x in phones <==> x != "" && exists c :: Reporting(c, cs, cs[k]) && c.phoneNumber == Some(x))
      && (Supplied(cs[k].phoneNumber) ==> |phones| > 0 && phones[0] == cs[k].phoneNumber.value)
      && FirstSeenOrder(PhoneStream(cs, cs[k]), phones)
  {
    FindPrimaryFirst(cs, k);
    var vs := PhoneStream(cs, cs[k]);
    assert cs[k] in cs;
    forall x ensures Some(x) in vs <==> exists c :: Reporting(c, cs, cs[k]) && c.phoneNumber == Some(x) {
      PhoneStreamContents(cs, cs[k], x);
    }
    CollectDistinctFirstSeenOrder(vs);
    if Supplied(cs[k].phoneNumber) {
      CollectDistinctHead(vs);
    }
  }

  /**
   For two listed contacts at positions `i < j`, their ids occur in `ids` in
   that order.
   */
  predicate KeepsListOrder(cs: seq<Contact>, primaryId: nat, ids: seq<nat>) {
    forall i, j :: 0 <= i < j < |cs| && ListedSecondary(cs[i], primaryId) && ListedSecondary(cs[j], primaryId) ==>
      InOrderIn(ids, cs[i].id, cs[j].id)
  }

  lemma {:induction false} SecondaryIdsInListOrder(cs: seq<Contact>, primaryId: nat)
    ensures KeepsListOrder(cs, primaryId, SecondaryIds(cs, primaryId))
  {
    if cs != [] {
      var tail := cs[1..];
      var rest := SecondaryIds(tail, primaryId);
      var head := if ListedSecondary(cs[0], primaryId) then [cs[0].id] else [];
      var ids := head + rest;
      assert ids == SecondaryIds(cs, primaryId);
      SecondaryIdsInListOrder(tail, primaryId);
      forall i, j | 0 <= i < j < |cs| && ListedSecondary(cs[i], primaryId) && ListedSecondary(cs[j], primaryId)
        ensures InOrderIn(ids, cs[i].id, cs[j].id)
      {
        if i == 0 {
          HeadBeforeTail(cs, primaryId, j);
        } else {
          assert cs[i] == tail[i - 1] && cs[j] == tail[j - 1];
          TailOrderShifts(cs, primaryId, i, j);
        }
      }
    }
  }

  lemma HeadBeforeTail(cs: seq<Contact>, primaryId: nat, j: nat)
    requires 0 < j < |cs| && ListedSecondary(cs[0], primaryId) && ListedSecondary(cs[j], primaryId)
    ensures InOrderIn(SecondaryIds(cs, primaryId), cs[0].id, cs[j].id)
  {
    var tail := cs[1..];
    var rest := SecondaryIds(tail, primaryId);
    var ids := [cs[0].id] + rest;
    assert ids == SecondaryIds(cs, primaryId);
    assert cs[j] == tail[j - 1] && tail[j - 1] in tail;
    assert cs[j].id in rest;
    var b :| 0 <= b < |rest| && rest[b] == cs[j].id;
    assert ids[0] == cs[0].id && ids[b + 1] == cs[j].id;
  }

  lemma TailOrderShifts(cs: seq<Contact>, primaryId: nat, i: nat, j: nat)
    requires 0 < i < j < |cs| && ListedSecondary(cs[i], primaryId) && ListedSecondary(cs[j], primaryId)
    requires InOrderIn(SecondaryIds(cs[1..], primaryId), cs[i].id, cs[j].id)
    ensures InOrderIn(SecondaryIds(cs, primaryId), cs[i].id, cs[j].id)
  {
    var rest := SecondaryIds(cs[1..], primaryId);
    var head := if ListedSecondary(cs[0], primaryId) then [cs[0].id] else [];
    var ids := head + rest;
    assert ids == SecondaryIds(cs, primaryId);
    var a, b :| 0 <= a < b < |rest| && rest[a] == cs[i].id && rest[b] == cs[j].id;
    assert ids[a + |head|] == cs[i].id && ids[b + |head|] == cs[j].id;
  }

  /** The contact with id `x` comes before one with id `y` in `cs`. */
  predicate IdPrecedes(cs: seq<Contact>, x: nat, y: nat) {
    exists i, j :: 0 <= i < j < |cs| && cs[i].id == x && cs[j].id == y
  }

  /** Every two listed ids name contacts that occur in that order in `cs`. */
  predicate FollowsListOrder(cs: seq<Contact>, ids: seq<nat>) {
    forall a, b :: 0 <= a < b < |ids| ==> IdPrecedes(cs, ids[a], ids[b])
  }

  lemma PrecedesInTail(cs: seq<Contact>, x: nat, y: nat)
    requires |cs| > 0 && IdPrecedes(cs[1..], x, y)
    ensures IdPrecedes(cs, x, y)
  {
    var i, j :| 0 <= i < j < |cs| - 1 && cs[1..][i].id == x && cs[1..][j].id == y;
    assert cs[i + 1].id == x && cs[j + 1].id == y;
  }

  lemma HeadPrecedes(cs: seq<Contact>, y: nat)
    requires |cs| > 0 && exists c :: c in cs[1..] && c.id == y
    ensures IdPrecedes(cs, cs[0].id, y)
  {
    var c :| c in cs[1..] && c.id == y;
    var j :| 0 <= j < |cs| - 1 && cs[1..][j] == c;
    assert cs[j + 1].id == y;
  }

  /** Some contact of `cs` has id `x`. */
  predicate HasId(cs: seq<Contact>, x: nat) {
    exists c :: c in cs && c.id == x
  }

  /** Prepending at most the first contact's id to ids read in order from the rest keeps them in order. */
  lemma ConsFollowsListOrder(cs: seq<Contact>, head: seq<nat>, rest: seq<nat>)
    requires |cs| > 0 && (head == [] || head == [cs[0].id])
    requires FollowsListOrder(cs[1..], rest)
    requires forall x :: x in rest ==> HasId(cs[1..], x)
    ensures FollowsListOrder(cs, head + rest)
  {
    var ids := head + rest;
    forall a, b | 0 <= a < b < |ids| ensures IdPrecedes(cs, ids[a], ids[b]) {
      if a < |head| {
        assert ids[a] == cs[0].id && ids[b] == rest[b - 1] && rest[b - 1] in rest;
        HeadPrecedes(cs, ids[b]);
      } else {
        assert ids[a] == rest[a - |head|] && ids[b] == rest[b - |head|];
        PrecedesInTail(cs, ids[a], ids[b]);
      }
    }
  }

  /** Read back from the result: the listed ids occur in the order of their contacts in `cs`. */
  lemma {:induction false} SecondaryIdsFromListOrder(cs: seq<Contact>, primaryId: nat)
    ensures FollowsListOrder(cs, SecondaryIds(cs, primaryId))
  {
    if cs != [] {
      var tail := cs[1..];
      var rest := SecondaryIds(tail, primaryId);
      var head := if ListedSecondary(cs[0], primaryId) then [cs[0].id] else [];
      assert head + rest == SecondaryIds(cs, primaryId);
      SecondaryIdsFromListOrder(tail, primaryId);
      forall x | x in rest ensures HasId(tail, x) {
        var c :| c in tail && c.id == x && ListedSecondary(c, primaryId);
      }
      ConsFollowsListOrder(cs, head, rest);
    }
  }

  /** With unique ids, the first contact's id is not among the ids listed for the rest. */
  lemma HeadNotListedLater(cs: seq<Contact>, primaryId: nat)
    requires |cs| > 0 && KeysUnique(cs)
    ensures cs[0].id !in SecondaryIds(cs[1..], primaryId)
  {
    forall c | c in cs[1..] ensures c.id != cs[0].id {
      var j :| 0 <= j < |cs| - 1 && cs[1..][j] == c;
      assert cs[j + 1] == c;
    }
  }

  /** Prepending at most one value that is not in a duplicate-free list keeps it duplicate-free. */
  lemma ConsNoDuplicates(head: seq<nat>, rest: seq<nat>)
    requires |head| <= 1 && NoDuplicates(rest)
    requires forall x :: x in head ==> x !in rest
    ensures NoDuplicates(head + rest)
  {
    var ids := head + rest;
    forall a, b | 0 <= a < b < |ids| ensures ids[a] != ids[b] {
      if a < |head| {
        assert ids[a] in head && ids[b] == rest[b - 1];
      } else {
        assert ids[a] == rest[a - |head|] && ids[b] == rest[b - |head|];
      }
    }
  }

  /** When the contacts' ids are unique, each listed id occurs once. */
  lemma {:induction false} SecondaryIdsDistinct(cs: seq<Contact>, primaryId: nat)
    requires KeysUnique(cs)
    ensures NoDuplicates(SecondaryIds(cs, primaryId))
  {
    if cs != [] {
      var tail := cs[1..];
      var rest := SecondaryIds(tail, primaryId);
      var head := if ListedSecondary(cs[0], primaryId) then [cs[0].id] else [];
      assert head + rest == SecondaryIds(cs, primaryId);
      assert KeysUnique(tail) by {
        forall i, j | 0 <= i < j < |tail| ensures tail[i].id != tail[j].id {
          assert tail[i] == cs[i + 1] && tail[j] == cs[j + 1];
        }
      }
      SecondaryIdsDistinct(tail, primaryId);
      HeadNotListedLater(cs, primaryId);
      ConsNoDuplicates(head, rest);
    }
  }

  /**
   The response's ids: the first primary-flagged contact's id as primary, and
   as secondaries exactly the secondary-flagged contacts with another id, so
   never the primary's. The order agrees with the list both ways, and with
   unique ids each is listed once, which together fix the list.
   */
  lemma FormatResponseIds(cs: seq<Contact>, k: nat)
    requires FirstPrimaryAt(cs, k)
    ensures FormatResponse(cs).Ok?
    ensures var s := FormatResponse(cs).value.contact;
      && s.primaryContactId == cs[k].id
      && cs[k].id !in s.secondaryContactIds
      && (forall x :: x in s.secondaryContactIds <==>
            x != cs[k].id && exists c :: c in cs && c.id == x && c.linkPrecedence == Secondary)
      && KeepsListOrder(cs, cs[k].id, s.secondaryContactIds)
      && FollowsListOrder(cs, s.secondaryContactIds)
      && (KeysUnique(cs) ==> NoDuplicates(s.secondaryContactIds))
  {
    FindPrimaryFirst(cs, k);
    SecondaryIdsInListOrder(cs, cs[k].id);
    SecondaryIdsFromListOrder(cs, cs[k].id);
    if KeysUnique(cs) {
      SecondaryIdsDistinct(cs, cs[k].id);
    }
  }

  /** When the contacts' ids are unique, a successful response lists each secondary id once. */
  lemma FormatResponseListsOnce(cs: seq<Contact>)
    requires KeysUnique(cs)
    ensures FormatResponse(cs).Ok? ==> NoDuplicates(FormatResponse(cs).value.contact.secondaryContactIds)
  {
    match FindPrimary(cs)
    case None =>
    case Some(k) => SecondaryIdsDistinct(cs, cs[k].id);
  }
}
