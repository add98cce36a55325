/**
 The order-preserving de-duplication the identify response applies to its
 email and phone-number lists: a value is appended when it is truthy and not
 yet in the list.
 */
module Distinct {
  import opened Wrappers
  import opened Contacts

  predicate NoDuplicates<T(==)>(s: seq<T>) {
    forall i, j :: 0 <= i < j < |s| ==> s[i] != s[j]
  }

  /** The position at which `x` first appears in `s`. */
  function FirstIndex<T(==)>(s: seq<T>, x: T): (k: nat)
    requires x in s
    ensures k < |s| && s[k] == x
    ensures forall j :: 0 <= j < k ==> s[j] != x
  {
    if s[0] == x then 0 else 1 + FirstIndex(s[1..], x)
  }

  /** `x` is a value the list reports: it occurs in `vs` and is not the empty string. */
  predicate Reported(vs: seq<Option<string>>, x: string) {
    x != "" && Some(x) in vs
  }

  /**
   Folds `vs` from the left into a list, appending each truthy value that the
   list does not include yet.
   */
  function CollectDistinct(vs: seq<Option<string>>): (r: seq<string>)
    ensures NoDuplicates(r)
    ensures forall x :: x in r <==> Reported(vs, x)
  {
    if vs == [] then []
    else
      var init := vs[..|vs| - 1];
      var acc := CollectDistinct(init);
      var v := vs[|vs| - 1];
      assert vs == init + [v];
      if Supplied(v) && v.value !in acc then acc + [v.value] else acc
  }

  /** Looking up a value that occurs in a prefix gives the same answer in the whole list. */
  lemma {:induction false} FirstIndexPrefix<T>(s: seq<T>, m: nat, x: T)
    requires m <= |s| && x in s[..m]
    ensures FirstIndex(s, x) == FirstIndex(s[..m], x)
  {
    if s[0] != x {
      assert s[1..][..m - 1] == s[..m][1..];
      assert x in s[..m][1..] by { assert s[..m] == [s[0]] + s[..m][1..]; }
      FirstIndexPrefix(s[1..], m - 1, x);
    }
  }

  /** Every value of `r` occurs in `vs`, and `r` lists them in the order of their first occurrence. */
  predicate FirstSeenOrder(vs: seq<Option<string>>, r: seq<string>) {
    forall i, j :: 0 <= i < j < |r| ==> SeenBefore(vs, r[i], r[j])
  }

  /** `x` and `y` both occur in `vs`, and `x` first occurs before `y` does. */
  predicate SeenBefore(vs: seq<Option<string>>, x: string, y: string) {
    Some(x) in vs && Some(y) in vs && FirstIndex(vs, Some(x)) < FirstIndex(vs, Some(y))
  }

  /** The collected values appear in the order in which they are first seen in the input. */
  lemma {:induction false} CollectDistinctFirstSeenOrder(vs: seq<Option<string>>)
    ensures FirstSeenOrder(vs, CollectDistinct(vs))
  {
    if vs != [] {
      var init := vs[..|vs| - 1];
      var acc := CollectDistinct(init);
      var v := vs[|vs| - 1];
      CollectDistinctFirstSeenOrder(init);
      assert vs == init + [v];
      if Supplied(v) && v.value !in acc {
        var r := acc + [v.value];
        assert Some(v.value) !in init;
        forall i, j | 0 <= i < j < |r| ensures SeenBefore(vs, r[i], r[j]) {
          if j < |acc| {
            SeenBeforeExtends(init, v, acc[i], acc[j]);
          } else {
            assert acc[i] in acc;
            SeenBeforeNew(init, v.value, acc[i]);
          }
        }
      } else {
        forall i, j | 0 <= i < j < |acc| ensures SeenBefore(vs, acc[i], acc[j]) {
          SeenBeforeExtends(init, v, acc[i], acc[j]);
        }
      }
    }
  }

  lemma SeenBeforeExtends(init: seq<Option<string>>, v: Option<string>, x: string, y: string)
    requires SeenBefore(init, x, y)
    ensures SeenBefore(init + [v], x, y)
  {
    var vs := init + [v];
    assert vs[..|init|] == init;
    FirstIndexPrefix(vs, |init|, Some(x));
    FirstIndexPrefix(vs, |init|, Some(y));
  }

  lemma SeenBeforeNew(init: seq<Option<string>>, y: string, x: string)
    requires Some(x) in init && Some(y) !in init
    ensures SeenBefore(init + [Some(y)], x, y)
  {
    var vs := init + [Some(y)];
    assert vs[..|init|] == init;
    FirstIndexPrefix(vs, |init|, Some(x));
    var k := FirstIndex(vs, Some(y));
    assert k == |init|;
  }

  /** The first input value, when truthy, heads the collected list. */
  lemma CollectDistinctHead(vs: seq<Option<string>>)
    requires |vs| > 0 && Supplied(vs[0])
    ensures |CollectDistinct(vs)| > 0 && CollectDistinct(vs)[0] == vs[0].value
  {
    var r := CollectDistinct(vs);
    assert vs[0].value in r;
    var k :| 0 <= k < |r| && r[k] == vs[0].value;
    assert FirstIndex(vs, Some(r[k])) == 0;
    CollectDistinctFirstSeenOrder(vs);
    forall i | 0 < i < |r| ensures r[i] != vs[0].value {
      assert SeenBefore(vs, r[0], r[i]);
    }
    assert k == 0;
  }
}
