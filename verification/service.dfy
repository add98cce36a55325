/**
 The identity-reconciliation service: `identify` and the seven steps it is
 built from, each a pure function over the Contact table.
 */
module ContactService {
  import opened Wrappers
  import opened Contacts
  import opened Store
  import opened Distinct

  const ValidationMessage := "At least one of email or phoneNumber must be provided"
  const MissingPrimaryMessage := "Primary contact not found"

  /** A row matches a request when it carries a supplied email or a supplied phone number. */
  predicate MatchesRequest(c: Contact, email: Option<string>, phoneNumber: Option<string>) {
    || (Supplied(email) && c.email == email)
    || (Supplied(phoneNumber) && c.phoneNumber == phoneNumber)
  }

  /** Step 1: the active rows that share a supplied field with the request, oldest first. */
  function FindMatchingContacts(t: Table, email: Option<string>, phoneNumber: Option<string>): (r: seq<Contact>)
    ensures Ascending(r)
    ensures forall c :: c in r <==> c in t && Active(c) && MatchesRequest(c, email, phoneNumber)
    ensures r == [] <==> forall c :: c in t && Active(c) ==> !MatchesRequest(c, email, phoneNumber)
  {
    var byEmail := if Supplied(email) then [EmailIs(email.value)] else [];
    var byPhone := if Supplied(phoneNumber) then [PhoneIs(phoneNumber.value)] else [];
    var anyOf := byEmail + byPhone;
    forall c ensures MeetsAny(c, anyOf) <==> MatchesRequest(c, email, phoneNumber) {
      if Supplied(email) && c.email == email {
        assert Meets(c, anyOf[0]);
      } else if Supplied(phoneNumber) && c.phoneNumber == phoneNumber {
        assert Meets(c, anyOf[|anyOf| - 1]);
      }
    }
    FindMany(t, anyOf)
  }

  function ContactIds(cs: seq<Contact>): set<nat> {
    set c | c in cs :: c.id
  }

  /**
   The ids step 2 treats as primaries: those of primary-flagged contacts and
   the truthy `linkedId` of every contact.
   */
  function PrimaryIds(cs: seq<Contact>): set<nat> {
    (set c | c in cs && LinkSet(c.linkedId) :: c.linkedId.value)
      + (set c | c in cs && c.linkPrecedence == Primary :: c.id)
  }

  /** A row step 2 gathers: one of the given contacts, one of their primaries, or linked to one of those. */
  predicate RelatedTo(c: Contact, cs: seq<Contact>) {
    || c.id in ContactIds(cs)
    || c.id in PrimaryIds(cs)
    || (c.linkedId.Some? && c.linkedId.value in PrimaryIds(cs))
  }

  /** Step 2: widens the matched contacts to every active row of their identity groups, oldest first. */
  function GetAllRelatedContacts(t: Table, initial: seq<Contact>): (r: seq<Contact>)
    ensures Ascending(r)
    ensures forall c :: c in r <==> c in t && Active(c) && RelatedTo(c, initial)
    ensures forall c :: c in initial && c in t && Active(c) ==> c in r
  {
    var anyOf := [IdIn(ContactIds(initial)), IdIn(PrimaryIds(initial)), LinkedIdIn(PrimaryIds(initial))];
    forall c ensures MeetsAny(c, anyOf) <==> RelatedTo(c, initial) {
      if c.id in ContactIds(initial) {
        assert Meets(c, anyOf[0]);
      } else if c.id in PrimaryIds(initial) {
        assert Meets(c, anyOf[1]);
      } else if c.linkedId.Some? && c.linkedId.value in PrimaryIds(initial) {
        assert Meets(c, anyOf[2]);
      }
    }
    FindMany(t, anyOf)
  }

  /**
   The position of the element JavaScript's `reduce` without a seed value
   keeps: the oldest, and on a tie of `createdAt` the earliest in the list.
   */
  function OldestIndex(cs: seq<Contact>): (k: nat)
    requires |cs| > 0
    ensures k < |cs|
    ensures forall j :: 0 <= j < |cs| ==> cs[k].createdAt <= cs[j].createdAt
    ensures forall j :: 0 <= j < k ==> cs[k].createdAt < cs[j].createdAt
  {
    if |cs| == 1 then 0
    else
      var k := OldestIndex(cs[..|cs| - 1]);
      if cs[|cs| - 1].createdAt < cs[k].createdAt then |cs| - 1 else k
  }

  /** Step 3: elects the oldest gathered contact as the group's primary. */
  function DeterminePrimaryContact(cs: seq<Contact>): (p: Contact)
    requires |cs| > 0
    ensures p in cs
    ensures forall c :: c in cs ==> p.createdAt <= c.createdAt
    ensures exists k :: 0 <= k < |cs| && cs[k] == p && forall j :: 0 <= j < k ==> p.createdAt < cs[j].createdAt
  {
    cs[OldestIndex(cs)]
  }

  /** The link precedence the row with id `id` must carry once `primaryId` is elected. */
  function TargetPrecedence(id: nat, primaryId: nat): LinkPrecedence {
    if id == primaryId then Primary else Secondary
  }

  /** The `linkedId` the row with id `id` must carry once `primaryId` is elected. */
  function TargetLink(id: nat, primaryId: nat): Option<nat> {
    if id == primaryId then None else Some(primaryId)
  }

  /** A contact whose link fields already agree with the election of `primaryId`. */
  predicate InTargetState(c: Contact, primaryId: nat) {
    c.linkPrecedence == TargetPrecedence(c.id, primaryId) && c.linkedId == TargetLink(c.id, primaryId)
  }

  /** `c` with its link fields set to agree with the election of `primaryId`. */
  function Retarget(c: Contact, primaryId: nat): (r: Contact)
    ensures InTargetState(r, primaryId)
    ensures r.id == c.id && r.email == c.email && r.phoneNumber == c.phoneNumber
    ensures r.createdAt == c.createdAt && r.deleted == c.deleted
    ensures InTargetState(c, primaryId) <==> r == c
  {
    c.(linkPrecedence := TargetPrecedence(c.id, primaryId), linkedId := TargetLink(c.id, primaryId))
  }

  /** One `update` of a row's link fields. */
  datatype Write = Write(id: nat, linkPrecedence: LinkPrecedence, linkedId: Option<nat>)

  /** A write that sets exactly the link fields the election of `primaryId` asks for. */
  predicate TargetWrite(w: Write, primaryId: nat) {
    w.linkPrecedence == TargetPrecedence(w.id, primaryId) && w.linkedId == TargetLink(w.id, primaryId)
  }

  /** The ids of the contacts whose link fields disagree with the election of `primaryId`. */
  function StaleIds(cs: seq<Contact>, primaryId: nat): set<nat> {
    set c | c in cs && !InTargetState(c, primaryId) :: c.id
  }

  function WrittenIds(ws: seq<Write>): set<nat> {
    set w | w in ws :: w.id
  }

  /**
   The updates step 4 issues, in list order: one per contact whose link
   fields disagree with the election; none for a contact already in place.
   */
  function NormalizationWrites(cs: seq<Contact>, primaryId: nat): (ws: seq<Write>)
    ensures |ws| <= |cs|
    ensures forall w :: w in ws ==> TargetWrite(w, primaryId)
    ensures WrittenIds(ws) == StaleIds(cs, primaryId)
    ensures ws == [] <==> forall c :: c in cs ==> InTargetState(c, primaryId)
  {
    if cs == [] then []
    else
      var c := cs[0];
      var rest := NormalizationWrites(cs[1..], primaryId);
      assert forall x :: x in cs <==> x == c || x in cs[1..];
      assert StaleIds(cs, primaryId) ==
        (if InTargetState(c, primaryId) then {} else {c.id}) + StaleIds(cs[1..], primaryId);
      if InTargetState(c, primaryId) then rest
      else
        var w := Write(c.id, TargetPrecedence(c.id, primaryId), TargetLink(c.id, primaryId));
        assert forall x :: x in [w] + rest <==> x == w || x in rest;
        assert WrittenIds([w] + rest) == {w.id} + WrittenIds(rest);
        [w] + rest
  }

  /** The table after the writes, applied one after another. */
  function ApplyWrites(t: Table, ws: seq<Write>): (r: Table)
    ensures |r| == |t|
    ensures forall i :: 0 <= i < |t| ==>
      r[i] == t[i].(linkPrecedence := r[i].linkPrecedence, linkedId := r[i].linkedId)
    decreases ws
  {
    if ws == [] then t
    else ApplyWrites(Update(t, ws[0].id, ws[0].linkPrecedence, ws[0].linkedId), ws[1..])
  }

  /**
   Step 4: rewrites the gathered contacts so that the elected one is primary
   and every other is a secondary linked to it.
   */
  function ConvertSecondariesToPrimary(t: Table, cs: seq<Contact>, primaryId: nat): (r: Table)
    ensures |r| == |t|
    ensures forall i :: 0 <= i < |t| ==>
      r[i] == if t[i].id in StaleIds(cs, primaryId) then Retarget(t[i], primaryId) else t[i]
  {
    var ws := NormalizationWrites(cs, primaryId);
    ApplyTargetWrites(t, ws, primaryId);
    ApplyWrites(t, ws)
  }

  /** Applying writes that all agree with one election retargets exactly the written rows. */
  lemma {:induction false} ApplyTargetWrites(t: Table, ws: seq<Write>, primaryId: nat)
    requires forall w :: w in ws ==> TargetWrite(w, primaryId)
    ensures forall i :: 0 <= i < |t| ==>
      ApplyWrites(t, ws)[i] == if t[i].id in WrittenIds(ws) then Retarget(t[i], primaryId) else t[i]
    decreases ws
  {
    if ws != [] {
      var w := ws[0];
      assert w in ws;
      var t1 := Update(t, w.id, w.linkPrecedence, w.linkedId);
      assert forall x :: x in ws[1..] ==> x in ws;
      ApplyTargetWrites(t1, ws[1..], primaryId);
      assert WrittenIds(ws) == {w.id} + WrittenIds(ws[1..]) by {
        assert forall x :: x in ws <==> x == w || x in ws[1..];
      }
    }
  }

  /** A contact that shares exactly this (email, phone) pair. */
  predicate HasPair(cs: seq<Contact>, email: Option<string>, phoneNumber: Option<string>) {
    exists c :: c in cs && c.email == email && c.phoneNumber == phoneNumber
  }

  predicate HasEmail(cs: seq<Contact>, email: Option<string>) {
    exists c :: c in cs && c.email == email
  }

  predicate HasPhone(cs: seq<Contact>, phoneNumber: Option<string>) {
    exists c :: c in cs && c.phoneNumber == phoneNumber
  }

  /** Step 5: whether the request records a new (email, phone) pair worth a secondary row. */
  function CheckIfNeedsNewContact(existing: seq<Contact>, email: Option<string>, phoneNumber: Option<string>): (b: bool)
    ensures b <==> Supplied(email) && Supplied(phoneNumber) && !HasPair(existing, email, phoneNumber)
                   && (HasEmail(existing, email) || HasPhone(existing, phoneNumber))
  {
    if Supplied(email) && Supplied(phoneNumber) then
      if HasPair(existing, email, phoneNumber) then false
      else if HasEmail(existing, email) && HasPhone(existing, phoneNumber) then true
      else if HasEmail(existing, email) || HasPhone(existing, phoneNumber) then true
      else false
    else false
  }

  /** A row of the chain of `primaryId`: the primary itself or a row linked to it. */
  predicate InChain(c: Contact, primaryId: nat) {
    c.id == primaryId || c.linkedId == Some(primaryId)
  }

  /** `where: { OR: [{ id: primaryId }, { linkedId: primaryId }] }`. */
  function ChainWhere(primaryId: nat): seq<Condition> {
    [IdIs(primaryId), LinkedIdIs(primaryId)]
  }

  /** Step 6: re-reads the active rows of the primary's chain, oldest first. */
  function GetAllContactsInChain(t: Table, primaryId: nat): (r: seq<Contact>)
    ensures Ascending(r)
    ensures forall c :: c in r <==> c in t && Active(c) && InChain(c, primaryId)
  {
    var anyOf := ChainWhere(primaryId);
    forall c ensures MeetsAny(c, anyOf) <==> InChain(c, primaryId) {
      if c.id == primaryId {
        assert Meets(c, anyOf[0]);
      } else if c.linkedId == Some(primaryId) {
        assert Meets(c, anyOf[1]);
      }
    }
    FindMany(t, anyOf)
  }

  /** The position of the first primary-flagged contact, if any. */
  function FindPrimary(cs: seq<Contact>): (k: Option<nat>)
    ensures k.Some? ==> k.value < |cs| && cs[k.value].linkPrecedence == Primary
    ensures k.Some? ==> forall j :: 0 <= j < k.value ==> cs[j].linkPrecedence != Primary
    ensures k.None? <==> forall c :: c in cs ==> c.linkPrecedence != Primary
  {
    if cs == [] then None
    else if cs[0].linkPrecedence == Primary then Some(0)
    else
      match FindPrimary(cs[1..])
      case None =>
        assert forall c :: c in cs ==> c == cs[0] || c in cs[1..];
        None
      case Some(k) => Some(k + 1)
  }

  /** The contacts that are not the primary with id `primaryId`, in list order. */
  function Others(cs: seq<Contact>, primaryId: nat): (r: seq<Contact>)
    ensures forall c :: c in r <==> c in cs && c.id != primaryId
  {
    if cs == [] then []
    else (if cs[0].id != primaryId then [cs[0]] else []) + Others(cs[1..], primaryId)
  }

  function EmailsOf(cs: seq<Contact>): (r: seq<Option<string>>)
    ensures |r| == |cs| && forall i :: 0 <= i < |cs| ==> r[i] == cs[i].email
  {
    seq(|cs|, i requires 0 <= i < |cs| => cs[i].email)
  }

  function PhonesOf(cs: seq<Contact>): (r: seq<Option<string>>)
    ensures |r| == |cs| && forall i :: 0 <= i < |cs| ==> r[i] == cs[i].phoneNumber
  {
    seq(|cs|, i requires 0 <= i < |cs| => cs[i].phoneNumber)
  }

  /** A contact whose id the response lists as secondary: not the primary, and flagged secondary. */
  predicate ListedSecondary(c: Contact, primaryId: nat) {
    c.id != primaryId && c.linkPrecedence == Secondary
  }

  /** The ids of the contacts listed as secondary, in list order. */
  function SecondaryIds(cs: seq<Contact>, primaryId: nat): (r: seq<nat>)
    ensures |r| <= |cs|
    ensures forall x :: x in r <==> exists c :: c in cs && c.id == x && ListedSecondary(c, primaryId)
  {
    if cs == [] then []
    else
      var rest := SecondaryIds(cs[1..], primaryId);
      assert forall c :: c in cs <==> c == cs[0] || c in cs[1..];
      (if ListedSecondary(cs[0], primaryId) then [cs[0].id] else []) + rest
  }

  /** The response built around the primary `p` of the list `cs`. */
  function Summarize(p: Contact, cs: seq<Contact>): ContactSummary {
    var others := Others(cs, p.id);
    ContactSummary(
      p.id,
      CollectDistinct([p.email] + EmailsOf(others)),
      CollectDistinct([p.phoneNumber] + PhonesOf(others)),
      SecondaryIds(cs, p.id))
  }

  /**
   Step 7: the response for a chain. Fails with status 500 when no contact is
   flagged primary.
   */
  function FormatResponse(cs: seq<Contact>): (r: Outcome)
    ensures r.Err? <==> forall c :: c in cs ==> c.linkPrecedence != Primary
    ensures r.Err? ==> r.error.statusCode == 500
  {
    match FindPrimary(cs)
    case None => Err(AppError(MissingPrimaryMessage, 500))
    case Some(k) => Ok(IdentifyResponse(Summarize(cs[k], cs)))
  }

  /** The transaction: its writes are kept when it returns, rolled back when it fails. */
  function Commit(before: Table, after: Table, outcome: Outcome): (Table, Outcome)
  {
    if outcome.Ok? then (after, outcome) else (before, outcome)
  }

  /** The no-match branch: records the request as a new primary contact. */
  function CreatePrimary(t: Table, email: Option<string>, phoneNumber: Option<string>): (r: (Table, Outcome))
  {
    var (t1, created) := Create(t, email, phoneNumber, Primary, None);
    Commit(t, t1, FormatResponse([created]))
  }

  /**
   The match branch, from the gathered group on: elect, normalize, insert
   when the pair is new, re-read the chain and shape the response.
   */
  function Reconcile(t: Table, email: Option<string>, phoneNumber: Option<string>, related: seq<Contact>): (r: (Table, Outcome))
    requires |related| > 0
  {
    var primary := DeterminePrimaryContact(related);
    var t1 := ConvertSecondariesToPrimary(t, related, primary.id);
    var t2 :=
      if CheckIfNeedsNewContact(related, email, phoneNumber)
      then Create(t1, email, phoneNumber, Secondary, Some(primary.id)).0
      else t1;
    Commit(t, t2, FormatResponse(GetAllContactsInChain(t2, primary.id)))
  }

  /**
   `identify`: validates the request, then reconciles the table in one
   transaction and returns the consolidated contact.
   */
  function Identify(t: Table, email: Option<string>, phoneNumber: Option<string>): (r: (Table, Outcome))
  {
    if !Supplied(email) && !Supplied(phoneNumber) then
      (t, Err(AppError(ValidationMessage, 400)))
    else
      var matching := FindMatchingContacts(t, email, phoneNumber);
      if |matching| == 0 then CreatePrimary(t, email, phoneNumber)
      else
        var related := GetAllRelatedContacts(t, matching);
        assert matching[0] in related;
        Reconcile(t, email, phoneNumber, related)
  }
}
