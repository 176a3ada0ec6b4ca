/**
 * The read-only item routes, `GET /items` and `GET /items/{id}`, as functions of the
 * current collection, and the specification of the removal done by `DELETE /items/{id}`.
 */
module Queries {
  import opened Wrappers
  import opened Items
  import opened TextMatch

  /** `a` is `b` with some elements dropped, the rest kept in their order. */
  ghost predicate IsSubsequence(a: seq<Item>, b: seq<Item>)
    decreases |b|
  {
    if a == [] then true
    else if b == [] then false
    else (a[0] == b[0] && IsSubsequence(a[1..], b[1..])) || IsSubsequence(a, b[1..])
  }

  lemma {:induction false} SubsequenceMembers(a: seq<Item>, b: seq<Item>, x: Item)
    requires IsSubsequence(a, b) && x in a
    ensures x in b
    decreases |b|
  {
    if a[0] == b[0] && IsSubsequence(a[1..], b[1..]) {
      if x != a[0] { SubsequenceMembers(a[1..], b[1..], x); }
    } else {
      SubsequenceMembers(a, b[1..], x);
    }
  }

  /** Dropping items never makes two ids collide. */
  lemma {:induction false} SubsequenceKeepsUnique(a: seq<Item>, b: seq<Item>)
    requires IsSubsequence(a, b) && Unique(b)
    ensures Unique(a)
    decreases |b|
  {
    if a != [] {
      UniqueTail(b);
      if a[0] == b[0] && IsSubsequence(a[1..], b[1..]) {
        SubsequenceKeepsUnique(a[1..], b[1..]);
        forall i, j | 0 <= i < j < |a| ensures a[i].id != a[j].id {
          assert a[j] == a[1..][j - 1];
          SubsequenceMembers(a[1..], b[1..], a[j]);
          if i == 0 {
            var k :| 0 <= k < |b[1..]| && b[1..][k] == a[j];
          } else {
            assert a[i] == a[1..][i - 1];
          }
        }
      } else {
        SubsequenceKeepsUnique(a, b[1..]);
      }
    }
  }

  // ---------------------------------------------------------------- GET /items

  /** The items of `s` whose name contains `filter` ignoring case, in order (`items.filter`). */
  function MatchingName(s: seq<Item>, filter: string): (r: seq<Item>)
    ensures |r| <= |s|
  {
    if s == [] then []
    else if ContainsIgnoreCase(s[0].name, filter) then [s[0]] + MatchingName(s[1..], filter)
    else MatchingName(s[1..], filter)
  }

  /** An item is listed exactly when it is stored and its name matches. */
  lemma {:induction false} MatchingNameMembers(s: seq<Item>, filter: string, x: Item)
    ensures x in MatchingName(s, filter) <==> x in s && ContainsIgnoreCase(x.name, filter)
  {
    if s != [] {
      MatchingNameMembers(s[1..], filter, x);
      assert s == [s[0]] + s[1..];
    }
  }

  /** Every matching item comes back as many times as it is stored; no other item comes back. */
  lemma {:induction false} MatchingNameCounts(s: seq<Item>, filter: string, x: Item)
    ensures multiset(MatchingName(s, filter))[x] == if ContainsIgnoreCase(x.name, filter) then multiset(s)[x] else 0
  {
    if s != [] {
      MatchingNameCounts(s[1..], filter, x);
      assert s == [s[0]] + s[1..];
      assert multiset(s) == multiset{s[0]} + multiset(s[1..]);
    }
  }

  /** The listed items keep their stored order. */
  lemma {:induction false} MatchingNameKeepsOrder(s: seq<Item>, filter: string)
    ensures IsSubsequence(MatchingName(s, filter), s)
  {
    if s != [] {
      MatchingNameKeepsOrder(s[1..], filter);
      var r := MatchingName(s[1..], filter);
      if ContainsIgnoreCase(s[0].name, filter) {
        assert ([s[0]] + r)[0] == s[0] && ([s[0]] + r)[1..] == r;
      } else if r != [] {
        assert IsSubsequence(r, s[1..]);
      }
    }
  }

  /** Filtering distributes over concatenation: each item is judged on its own. */
  lemma {:induction false} MatchingNameAppend(a: seq<Item>, b: seq<Item>, filter: string)
    ensures MatchingName(a + b, filter) == MatchingName(a, filter) + MatchingName(b, filter)
  {
    if a != [] {
      assert (a + b)[0] == a[0] && (a + b)[1..] == a[1..] + b;
      MatchingNameAppend(a[1..], b, filter);
      if ContainsIgnoreCase(a[0].name, filter) {
        assert [a[0]] + (MatchingName(a[1..], filter) + MatchingName(b, filter))
            == ([a[0]] + MatchingName(a[1..], filter)) + MatchingName(b, filter);
      }
    } else {
      assert a + b == b;
    }
  }

  /** Filtering twice with the same filter gives what filtering once gave. */
  lemma {:induction false} MatchingNameIdempotent(s: seq<Item>, filter: string)
    ensures MatchingName(MatchingName(s, filter), filter) == MatchingName(s, filter)
  {
    if s != [] {
      MatchingNameIdempotent(s[1..], filter);
    }
  }

  /** When every name matches, the filter returns the whole collection. */
  lemma {:induction false} MatchingNameAllMatch(s: seq<Item>, filter: string)
    requires forall i | 0 <= i < |s| :: ContainsIgnoreCase(s[i].name, filter)
    ensures MatchingName(s, filter) == s
  {
    if s != [] {
      MatchingNameAllMatch(s[1..], filter);
    }
  }

  /**
   * `GET /items?name=...`: the whole collection when the filter is absent or blank,
   * otherwise the items whose name contains it ignoring case. Always 200.
   */
  function ListItems(s: seq<Item>, nameFilter: Option<string>): (r: Response)
    ensures r.status == OK && r.body.ItemList?
    ensures IsNullOrBlank(nameFilter) ==> r.body.items == s
    ensures !IsNullOrBlank(nameFilter) ==>
      && IsSubsequence(r.body.items, s)
      && (forall x :: x in r.body.items <==> x in s && OccursIgnoreCase(x.name, nameFilter.value))
      && forall x :: multiset(r.body.items)[x] == if OccursIgnoreCase(x.name, nameFilter.value) then multiset(s)[x] else 0
  {
    if IsNullOrBlank(nameFilter) then Response(OK, ItemList(s))
    else
      var r := MatchingName(s, nameFilter.value);
      assert forall x: Item :: x in r <==> x in s && OccursIgnoreCase(x.name, nameFilter.value) by {
        forall x: Item
          ensures x in r <==> x in s && OccursIgnoreCase(x.name, nameFilter.value)
        {
          MatchingNameMembers(s, nameFilter.value, x);
        }
      }
      assert forall x: Item :: multiset(r)[x] == if OccursIgnoreCase(x.name, nameFilter.value) then multiset(s)[x] else 0 by {
        forall x: Item
          ensures multiset(r)[x] == if OccursIgnoreCase(x.name, nameFilter.value) then multiset(s)[x] else 0
        {
          MatchingNameCounts(s, nameFilter.value, x);
        }
      }
      MatchingNameKeepsOrder(s, nameFilter.value);
      Response(OK, ItemList(r))
  }

  // ------------------------------------------------------------ GET /items/{id}

  /** The first item of `s` whose id is `id` (`items.find { it.id == id }`). */
  function Find(s: seq<Item>, id: int): (r: Option<Item>)
    ensures r.None? <==> !HasId(s, id)
    ensures r.Some? ==> r.value.id == id && exists i | 0 <= i < |s| :: s[i] == r.value && !HasId(s[..i], id)
  {
    if s == [] then None
    else if s[0].id == id then
      assert s[..0] == [];
      Some(s[0])
    else
      var r := Find(s[1..], id);
      assert r.Some? ==> exists i | 0 <= i < |s| :: s[i] == r.value && !HasId(s[..i], id) by {
        if r.Some? {
          var i :| 0 <= i < |s[1..]| && s[1..][i] == r.value && !HasId(s[1..][..i], id);
          assert s[..i + 1] == [s[0]] + s[1..][..i];
          HasIdAppend([s[0]], s[1..][..i], id);
          assert s[i + 1] == r.value;
        }
      }
      assert !HasId(s, id) ==> !HasId(s[1..], id) by {
        assert forall i | 0 <= i < |s[1..]| :: s[1..][i] == s[i + 1];
      }
      r
  }

  /** With unique ids, the item found is the one item of the collection with that id. */
  lemma FindUnique(s: seq<Item>, id: int, x: Item)
    requires Unique(s)
    ensures Find(s, id) == Some(x) <==> x in s && x.id == id
  {
    if x in s && x.id == id {
      var j :| 0 <= j < |s| && s[j] == x;
      var r := Find(s, id);
      var i :| 0 <= i < |s| && s[i] == r.value && !HasId(s[..i], id);
      assert forall k | 0 <= k < i :: s[..i][k] == s[k];
    }
  }

  /** An item appended with a fresh id is found under its id; other lookups are unchanged. */
  lemma {:induction false} FindAfterAppend(s: seq<Item>, x: Item, id: int)
    requires !HasId(s, x.id)
    ensures Find(s + [x], id) == if id == x.id then Some(x) else Find(s, id)
  {
    if s == [] {
    } else {
      assert (s + [x])[1..] == s[1..] + [x];
      assert (s + [x])[0] == s[0];
      assert !HasId(s[1..], x.id) by {
        forall i | 0 <= i < |s[1..]| ensures s[1..][i].id != x.id { assert s[1..][i] == s[i + 1]; }
      }
      FindAfterAppend(s[1..], x, id);
    }
  }

  /**
   * `GET /items/{id}`: 400 when the id does not parse, 404 when no item has it,
   * 200 with the first item that has it otherwise.
   */
  function GetItem(s: seq<Item>, idParam: Option<int>): (r: Response)
    ensures idParam.None? ==> r == Response(BadRequest, Error(InvalidId))
    ensures idParam.Some? && !HasId(s, idParam.value) ==> r == Response(NotFound, Error(ItemNotFound))
    ensures idParam.Some? && HasId(s, idParam.value) ==>
      && r.status == OK && r.body.OneItem? && r.body.item.id == idParam.value
      && exists i | 0 <= i < |s| :: s[i] == r.body.item && !HasId(s[..i], idParam.value)
  {
    match idParam
    case None => Response(BadRequest, Error(InvalidId))
    case Some(id) =>
      match Find(s, id)
      case None => Response(NotFound, Error(ItemNotFound))
      case Some(item) => Response(OK, OneItem(item))
  }

  /** After a fresh item is appended, getting its id returns it and every other get is unchanged. */
  lemma GetAfterAppend(s: seq<Item>, x: Item, id: int)
    requires !HasId(s, x.id)
    ensures GetItem(s + [x], Some(id)) == if id == x.id then Response(OK, OneItem(x)) else GetItem(s, Some(id))
  {
    FindAfterAppend(s, x, id);
  }

  // --------------------------------------------------------- DELETE /items/{id}

  /** `s` without the items whose id is `id`, the rest in order (`removeIf { it.id == id }`). */
  function WithoutId(s: seq<Item>, id: int): (r: seq<Item>)
    ensures |r| == |s| - CountId(s, id)
  {
    if s == [] then []
    else if s[0].id == id then WithoutId(s[1..], id)
    else [s[0]] + WithoutId(s[1..], id)
  }

  /** An item survives the removal exactly when it was stored under another id. */
  lemma {:induction false} WithoutIdMembers(s: seq<Item>, id: int, x: Item)
    ensures x in WithoutId(s, id) <==> x in s && x.id != id
  {
    if s != [] {
      WithoutIdMembers(s[1..], id, x);
      assert s == [s[0]] + s[1..];
    }
  }

  /** The surviving items keep their order. */
  lemma {:induction false} WithoutIdKeepsOrder(s: seq<Item>, id: int)
    ensures IsSubsequence(WithoutId(s, id), s)
  {
    if s != [] {
      WithoutIdKeepsOrder(s[1..], id);
      var r := WithoutId(s[1..], id);
      if s[0].id != id {
        assert ([s[0]] + r)[0] == s[0] && ([s[0]] + r)[1..] == r;
      } else if r != [] {
        assert IsSubsequence(r, s[1..]);
      }
    }
  }

  /** Removal distributes over concatenation. */
  lemma {:induction false} WithoutIdAppend(a: seq<Item>, b: seq<Item>, id: int)
    ensures WithoutId(a + b, id) == WithoutId(a, id) + WithoutId(b, id)
  {
    if a != [] {
      assert (a + b)[0] == a[0] && (a + b)[1..] == a[1..] + b;
      WithoutIdAppend(a[1..], b, id);
      if a[0].id != id {
        assert [a[0]] + (WithoutId(a[1..], id) + WithoutId(b, id))
            == ([a[0]] + WithoutId(a[1..], id)) + WithoutId(b, id);
      }
    } else {
      assert a + b == b;
    }
  }

  /** Removing an id nobody carries changes nothing. */
  lemma {:induction false} WithoutAbsentId(s: seq<Item>, id: int)
    requires !HasId(s, id)
    ensures WithoutId(s, id) == s
  {
    if s != [] {
      assert !HasId(s[1..], id) by {
        forall i | 0 <= i < |s[1..]| ensures s[1..][i].id != id { assert s[1..][i] == s[i + 1]; }
      }
      WithoutAbsentId(s[1..], id);
    }
  }

  /** Removal keeps the ids unique; with unique ids it removes exactly one item when the id is present. */
  lemma RemovalUnderUniqueIds(s: seq<Item>, id: int)
    requires Unique(s)
    ensures Unique(WithoutId(s, id))
    ensures |WithoutId(s, id)| == if HasId(s, id) then |s| - 1 else |s|
  {
    WithoutIdKeepsOrder(s, id);
    SubsequenceKeepsUnique(WithoutId(s, id), s);
    CountIdPositive(s, id);
    UniqueCountAtMostOne(s, id);
  }

  /** After a removal the id is gone: a get, or the same removal again, finds nothing. */
  lemma RemovalIsFinal(s: seq<Item>, id: int)
    ensures !HasId(WithoutId(s, id), id)
    ensures GetItem(WithoutId(s, id), Some(id)) == Response(NotFound, Error(ItemNotFound))
    ensures WithoutId(WithoutId(s, id), id) == WithoutId(s, id)
  {
    var r := WithoutId(s, id);
    forall i | 0 <= i < |r| ensures r[i].id != id {
      WithoutIdMembers(s, id, r[i]);
    }
    WithoutAbsentId(r, id);
  }
}
