/**
 An in-memory stand-in for the Contact table and the three table primitives
 the service uses: `findMany` with an OR of conditions and
 `orderBy: { createdAt: 'asc' }`, `create`, and `update` by id.
 */
module Store {
  import opened Wrappers
  import opened Contacts

  /** The Contact table, in insertion order. */
  type Table = seq<Contact>

  /** One alternative of a `where: { OR: [...] }` clause. */
  datatype Condition =
    | EmailIs(email: string)
    | PhoneIs(phoneNumber: string)
    | IdIs(id: nat)
    | LinkedIdIs(linkedId: nat)
    | IdIn(ids: set<nat>)
    | LinkedIdIn(linkedIds: set<nat>)

  predicate Meets(c: Contact, cond: Condition) {
    match cond
    case EmailIs(e) => c.email == Some(e)
    case PhoneIs(p) => c.phoneNumber == Some(p)
    case IdIs(id) => c.id == id
    case LinkedIdIs(l) => c.linkedId == Some(l)
    case IdIn(ids) => c.id in ids
    case LinkedIdIn(ls) => c.linkedId.Some? && c.linkedId.value in ls
  }

  /** An OR of conditions; an empty OR selects nothing. */
  predicate MeetsAny(c: Contact, anyOf: seq<Condition>) {
    exists k :: 0 <= k < |anyOf| && Meets(c, anyOf[k])
  }

  /** The rows a `findMany` selects: active, and meeting one of the alternatives. */
  predicate Selected(c: Contact, anyOf: seq<Condition>) {
    Active(c) && MeetsAny(c, anyOf)
  }

  /** `x` occurs in `s` at some position before one holding `y`. */
  predicate InOrderIn<T(==)>(s: seq<T>, x: T, y: T) {
    exists a, b :: 0 <= a < b < |s| && s[a] == x && s[b] == y
  }

  /** `r` takes its elements from `s` without reordering them. */
  predicate OrderedFrom<T(==)>(s: seq<T>, r: seq<T>) {
    forall i, j :: 0 <= i < j < |r| ==> InOrderIn(s, r[i], r[j])
  }

  /** Keeping or dropping the head of `s` in front of elements taken in order from its tail keeps the order. */
  lemma ConsOrderedFrom<T>(s: seq<T>, head: seq<T>, rest: seq<T>)
    requires |s| > 0 && (head == [] || head == [s[0]])
    requires OrderedFrom(s[1..], rest)
    requires forall x :: x in rest ==> x in s[1..]
    ensures OrderedFrom(s, head + rest)
  {
    var r := head + rest;
    forall i, j | 0 <= i < j < |r| ensures InOrderIn(s, r[i], r[j]) {
      if i < |head| {
        assert r[i] == s[0] && r[j] == rest[j - 1] && rest[j - 1] in rest;
        var b :| 0 <= b < |s| - 1 && s[1..][b] == r[j];
        assert s[b + 1] == r[j];
      } else {
        assert r[i] == rest[i - |head|] && r[j] == rest[j - |head|];
        var a, b :| 0 <= a < b < |s| - 1 && s[1..][a] == r[i] && s[1..][b] == r[j];
        assert s[a + 1] == r[i] && s[b + 1] == r[j];
      }
    }
  }

  /** The selected rows, in table order. */
  function Filter(t: Table, anyOf: seq<Condition>): (r: Table)
    ensures |r| <= |t|
    ensures forall c :: c in r <==> c in t && Selected(c, anyOf)
    ensures r == [] <==> forall c :: c in t ==> !Selected(c, anyOf)
  {
    if t == [] then []
    else (if Selected(t[0], anyOf) then [t[0]] else []) + Filter(t[1..], anyOf)
  }

  /** The id column is a primary key: no two rows share an id. */
  predicate KeysUnique(t: Table) {
    forall i, j :: 0 <= i < j < |t| ==> t[i].id != t[j].id
  }

  /** With unique keys, a row is determined by its id. */
  lemma SameIdSameRow(t: Table, a: Contact, b: Contact)
    requires KeysUnique(t) && a in t && b in t && a.id == b.id
    ensures a == b
  {
    var i :| 0 <= i < |t| && t[i] == a;
    var j :| 0 <= j < |t| && t[j] == b;
    assert i == j;
  }

  /** Non-decreasing `createdAt`: the order `orderBy: { createdAt: 'asc' }` produces. */
  predicate Ascending(s: seq<Contact>) {
    forall i, j :: 0 <= i < j < |s| ==> s[i].createdAt <= s[j].createdAt
  }

  /** Strictly increasing `createdAt`: every row was created after the ones before it. */
  predicate StrictlyAscending(s: seq<Contact>) {
    forall i, j :: 0 <= i < j < |s| ==> s[i].createdAt < s[j].createdAt
  }

  /** Puts `c` after every element of `s` whose `createdAt` is not later than its own. */
  function InsertByCreatedAt(c: Contact, s: seq<Contact>): (r: seq<Contact>)
    requires Ascending(s)
    ensures Ascending(r)
    ensures multiset(r) == multiset(s) + multiset{c}
    ensures |r| == |s| + 1
  {
    if s == [] then [c]
    else if c.createdAt < s[0].createdAt then
      assert forall i :: 0 <= i < |s| ==> s[0].createdAt <= s[i].createdAt;
      [c] + s
    else
      var tail := s[1..];
      assert forall x :: x in tail ==> s[0].createdAt <= x.createdAt;
      var rest := InsertByCreatedAt(c, tail);
      assert s == [s[0]] + tail;
      assert multiset([s[0]] + rest) == multiset{s[0]} + multiset(rest);
      InsertHead(s[0], rest, tail, c);
      [s[0]] + rest
  }

  /** Prepending an element no later than anything that follows keeps a list ascending. */
  lemma InsertHead(h: Contact, rest: seq<Contact>, tail: seq<Contact>, c: Contact)
    requires Ascending(rest)
    requires multiset(rest) == multiset(tail) + multiset{c}
    requires h.createdAt <= c.createdAt
    requires forall x :: x in tail ==> h.createdAt <= x.createdAt
    ensures Ascending([h] + rest)
  {
    forall x | x in rest ensures h.createdAt <= x.createdAt {
      assert x in multiset(rest);
    }
    var r := [h] + rest;
    forall i, j | 0 <= i < j < |r| ensures r[i].createdAt <= r[j].createdAt {
      if i > 0 {
        assert r[i] == rest[i - 1] && r[j] == rest[j - 1];
      } else {
        assert r[j] == rest[j - 1] && rest[j - 1] in rest;
      }
    }
  }

  /**
   A stable sort by `createdAt`; rows with equal timestamps keep their table
   order.
   */
  function OrderByCreatedAt(s: seq<Contact>): (r: seq<Contact>)
    ensures Ascending(r)
    ensures multiset(r) == multiset(s)
  {
    if s == [] then []
    else
      assert s == s[..|s| - 1] + [s[|s| - 1]];
      InsertByCreatedAt(s[|s| - 1], OrderByCreatedAt(s[..|s| - 1]))
  }

  /** `findMany({ where: { OR: anyOf, deletedAt: null }, orderBy: { createdAt: 'asc' } })`. */
  function FindMany(t: Table, anyOf: seq<Condition>): (r: seq<Contact>)
    ensures Ascending(r)
    ensures forall c :: c in r <==> c in t && Selected(c, anyOf)
    ensures r == [] <==> forall c :: c in t ==> !Selected(c, anyOf)
  {
    var r := OrderByCreatedAt(Filter(t, anyOf));
    assert forall c :: c in r <==> c in multiset(Filter(t, anyOf));
    r
  }

  /** The id the table assigns to its next row: one past every id ever used. */
  function NextId(t: Table): (n: nat)
    ensures n >= 1
    ensures forall c :: c in t ==> c.id < n
  {
    if t == [] then 1
    else
      var rest := NextId(t[1..]);
      assert forall c :: c in t ==> c == t[0] || c in t[1..];
      if t[0].id + 1 > rest then t[0].id + 1 else rest
  }

  /** The timestamp of the next row: later than every row's `createdAt`. */
  function NextCreatedAt(t: Table): (n: nat)
    ensures forall c :: c in t ==> c.createdAt < n
  {
    if t == [] then 0
    else
      var rest := NextCreatedAt(t[1..]);
      assert forall c :: c in t ==> c == t[0] || c in t[1..];
      if t[0].createdAt + 1 > rest then t[0].createdAt + 1 else rest
  }

  /**
   `create({ data })`: appends an active row with a fresh id and the latest
   timestamp, and returns that row.
   */
  function Create(t: Table, email: Option<string>, phoneNumber: Option<string>,
                  precedence: LinkPrecedence, linkedId: Option<nat>): (r: (Table, Contact))
    ensures r.0 == t + [r.1]
    ensures r.1.id >= 1 && forall c :: c in t ==> c.id < r.1.id
    ensures forall c :: c in t ==> c.createdAt < r.1.createdAt
    ensures r.1.email == email && r.1.phoneNumber == phoneNumber
    ensures r.1.linkPrecedence == precedence && r.1.linkedId == linkedId
    ensures Active(r.1)
  {
    var c := Contact(NextId(t), phoneNumber, email, linkedId, precedence, NextCreatedAt(t), false);
    (t + [c], c)
  }

  /** `update({ where: { id }, data: { linkPrecedence, linkedId } })`. */
  function Update(t: Table, id: nat, precedence: LinkPrecedence, linkedId: Option<nat>): (r: Table)
    ensures |r| == |t|
    ensures forall i :: 0 <= i < |t| && t[i].id != id ==> r[i] == t[i]
    ensures forall i :: 0 <= i < |t| && t[i].id == id ==>
      r[i] == t[i].(linkPrecedence := precedence, linkedId := linkedId)
  {
    seq(|t|, i requires 0 <= i < |t| =>
      if t[i].id == id then t[i].(linkPrecedence := precedence, linkedId := linkedId) else t[i])
  }

  /** Sorting a list that is already in `createdAt` order leaves it as it is. */
  lemma {:induction false} OrderByCreatedAtSorted(s: seq<Contact>)
    requires Ascending(s)
    ensures OrderByCreatedAt(s) == s
  {
    if s != [] {
      var init := s[..|s| - 1];
      assert Ascending(init);
      OrderByCreatedAtSorted(init);
      InsertLast(s[|s| - 1], init);
      assert init + [s[|s| - 1]] == s;
    }
  }

  lemma {:induction false} InsertLast(c: Contact, s: seq<Contact>)
    requires Ascending(s)
    requires forall x :: x in s ==> x.createdAt <= c.createdAt
    ensures InsertByCreatedAt(c, s) == s + [c]
  {
    if s != [] {
      var tail := s[1..];
      assert s[0] in s;
      assert !(c.createdAt < s[0].createdAt);
      assert Ascending(tail);
      forall x | x in tail ensures x.createdAt <= c.createdAt {
        assert x in s;
      }
      assert InsertByCreatedAt(c, s) == [s[0]] + InsertByCreatedAt(c, tail);
      InsertLast(c, tail);
      assert s == [s[0]] + tail;
      assert [s[0]] + (tail + [c]) == s + [c];
    }
  }

  /** Filtering keeps the relative order of rows, so it keeps them in creation order. */
  lemma {:induction false} FilterStrictlyAscending(t: Table, anyOf: seq<Condition>)
    requires StrictlyAscending(t)
    ensures StrictlyAscending(Filter(t, anyOf))
  {
    if t != [] {
      var tail := t[1..];
      assert StrictlyAscending(tail);
      FilterStrictlyAscending(tail, anyOf);
      var rest := Filter(tail, anyOf);
      forall x | x in rest ensures t[0].createdAt < x.createdAt {
        var k :| 0 <= k < |tail| && tail[k] == x;
        assert t[k + 1] == x;
      }
      if Selected(t[0], anyOf) {
        PrependStrictlyAscending(t[0], rest);
      }
    }
  }

  lemma PrependStrictlyAscending(h: Contact, s: seq<Contact>)
    requires StrictlyAscending(s)
    requires forall x :: x in s ==> h.createdAt < x.createdAt
    ensures StrictlyAscending([h] + s)
  {
    var r := [h] + s;
    forall i, j | 0 <= i < j < |r| ensures r[i].createdAt < r[j].createdAt {
      assert r[j] == s[j - 1] && s[j - 1] in s;
      if i > 0 {
        assert r[i] == s[i - 1];
      }
    }
  }

  /** On a table in creation order, `findMany` returns the selected rows in table order. */
  lemma FindManyInTableOrder(t: Table, anyOf: seq<Condition>)
    requires StrictlyAscending(t)
    ensures FindMany(t, anyOf) == Filter(t, anyOf)
    ensures StrictlyAscending(FindMany(t, anyOf))
  {
    FilterStrictlyAscending(t, anyOf);
    OrderByCreatedAtSorted(Filter(t, anyOf));
  }

  /** Filtering keeps each selected row exactly as often as the table holds it, and in table order. */
  lemma FilterKeepsRows(t: Table, anyOf: seq<Condition>)
    ensures forall c :: multiset(Filter(t, anyOf))[c] == if Selected(c, anyOf) then multiset(t)[c] else 0
    ensures OrderedFrom(t, Filter(t, anyOf))
  {
    FilterCounts(t, anyOf);
    FilterInTableOrder(t, anyOf);
  }

  /** Filtering keeps each selected row exactly as often as the table holds it, and drops the others. */
  lemma {:induction false} FilterCounts(t: Table, anyOf: seq<Condition>)
    ensures forall c :: multiset(Filter(t, anyOf))[c] == if Selected(c, anyOf) then multiset(t)[c] else 0
  {
    if t != [] {
      var head := if Selected(t[0], anyOf) then [t[0]] else [];
      var rest := Filter(t[1..], anyOf);
      assert Filter(t, anyOf) == head + rest;
      assert multiset(Filter(t, anyOf)) == multiset(head) + multiset(rest);
      assert t == [t[0]] + t[1..];
      assert multiset(t) == multiset{t[0]} + multiset(t[1..]);
      FilterCounts(t[1..], anyOf);
    }
  }

  /** Filtering takes its rows from the table without reordering them. */
  lemma {:induction false} FilterInTableOrder(t: Table, anyOf: seq<Condition>)
    ensures OrderedFrom(t, Filter(t, anyOf))
  {
    if t != [] {
      var head := if Selected(t[0], anyOf) then [t[0]] else [];
      var rest := Filter(t[1..], anyOf);
      assert Filter(t, anyOf) == head + rest;
      FilterInTableOrder(t[1..], anyOf);
      ConsOrderedFrom(t, head, rest);
    }
  }

  /** `findMany` returns each selected row exactly as often as the table holds it. */
  lemma FindManyKeepsRows(t: Table, anyOf: seq<Condition>)
    ensures forall c :: multiset(FindMany(t, anyOf))[c] == if Selected(c, anyOf) then multiset(t)[c] else 0
  {
    FilterKeepsRows(t, anyOf);
  }

  /** Filtering a table with one more row filters the old rows and then the new one. */
  lemma {:induction false} FilterAppend(t: Table, c: Contact, anyOf: seq<Condition>)
    ensures Filter(t + [c], anyOf) == Filter(t, anyOf) + (if Selected(c, anyOf) then [c] else [])
  {
    if t != [] {
      assert (t + [c])[1..] == t[1..] + [c];
      FilterAppend(t[1..], c, anyOf);
    }
  }
}
