/**
 * The shared item collection and the two routes that change it, `POST /items` and
 * `DELETE /items/{id}`. Each request is one atomic step on the collection.
 */
module Store {
  import opened Wrappers
  import opened Items
  import opened Queries

  /**
   * `removeIf { it.id == id }` on the collection: the items kept, in order, and
   * whether anything was removed. The copy-on-write list builds its new contents
   * the same way, by one pass that keeps every item that does not match.
   */
  method RemoveIf(s: seq<Item>, id: int) returns (kept: seq<Item>, removed: bool)
    ensures kept == WithoutId(s, id)
    ensures removed <==> HasId(s, id)
  {
    kept, removed := [], false;
    var i := 0;
    while i < |s|
      invariant 0 <= i <= |s|
      invariant kept == WithoutId(s[..i], id)
      invariant removed <==> HasId(s[..i], id)
    {
      assert s[..i + 1] == s[..i] + [s[i]];
      WithoutIdAppend(s[..i], [s[i]], id);
      HasIdAppend(s[..i], [s[i]], id);
      assert [s[i]][1..] == [];
      if s[i].id == id {
        removed := true;
      } else {
        kept := kept + [s[i]];
      }
      i := i + 1;
    }
    assert s[..i] == s;
  }

  /** The in-memory collection behind the item routes. */
  class ItemStore {
    var items: seq<Item>

    /** No two stored items share an id. */
    ghost predicate Valid()
      reads this
    {
      Unique(items)
    }

    /** The collection as the server starts with it. */
    constructor ()
      ensures items == Seed() && Valid()
    {
      items := Seed();
    }

    /**
     * `POST /items`: 400 when the body does not decode, 409 when the id is taken,
     * otherwise the item is appended and echoed with 201.
     */
    method Create(body: Option<Item>) returns (resp: Response)
      modifies this
      ensures body.None? ==> resp == Response(BadRequest, Error(InvalidBody)) && items == old(items)
      ensures body.Some? && HasId(old(items), body.value.id) ==>
        resp == Response(Conflict, Error(DuplicateId)) && items == old(items)
      ensures body.Some? && !HasId(old(items), body.value.id) ==>
        resp == Response(Created, OneItem(body.value)) && items == old(items) + [body.value]
      ensures old(Valid()) ==> Valid()
    {
      if body.None? {
        return Response(BadRequest, Error(InvalidBody));
      }
      var newItem := body.value;
      if HasId(items, newItem.id) {
        resp := Response(Conflict, Error(DuplicateId));
      } else {
        ghost var before := items;
        items := items + [newItem];
        if Unique(before) { AppendFreshKeepsUnique(before, newItem); }
        resp := Response(Created, OneItem(newItem));
      }
    }

    /**
     * `DELETE /items/{id}`: 400 when the id does not parse; otherwise every item with
     * that id is removed, answering 200 when something was removed and 404 when not.
     */
    method Delete(idParam: Option<int>) returns (resp: Response)
      modifies this
      ensures idParam.None? ==> resp == Response(BadRequest, Error(InvalidId)) && items == old(items)
      ensures idParam.Some? ==> items == WithoutId(old(items), idParam.value)
      ensures idParam.Some? && HasId(old(items), idParam.value) ==> resp == Response(OK, Message(ItemDeleted))
      ensures idParam.Some? && !HasId(old(items), idParam.value) ==>
        resp == Response(NotFound, Error(ItemNotFound)) && items == old(items)
      ensures idParam.Some? && old(Valid()) ==>
        Valid() && |items| == |old(items)| - (if HasId(old(items), idParam.value) then 1 else 0)
    {
      if idParam.None? {
        return Response(BadRequest, Error(InvalidId));
      }
      var id := idParam.value;
      ghost var before := items;
      var kept, removed := RemoveIf(items, id);
      items := kept;
      if !removed { WithoutAbsentId(before, id); }
      if Unique(before) { RemovalUnderUniqueIds(before, id); }
      if removed {
        resp := Response(OK, Message(ItemDeleted));
      } else {
        resp := Response(NotFound, Error(ItemNotFound));
      }
    }
  }

  /**
   * The name filter `mo` picks the mouse out of the starting collection. The collection
   * and the filter are parameters so that the solver does not evaluate the search on
   * string literals.
   */
  lemma SeedFilterMo(s: seq<Item>, filter: string)
    requires s == Seed() && filter == "mo"
    ensures ListItems(s, Some(filter)) == Response(OK, ItemList([s[1]]))
  {
    assert MatchingName(s, filter) == [s[1]] by {
      OnlyMiddleMatches(s[0], s[1], s[2], filter);
      assert s == [s[0], s[1], s[2]];
    }
    assert !TextMatch.IsNullOrBlank(Some(filter)) by {
      assert filter[0] == 'm' && !TextMatch.IsWhitespace(filter[0]);
    }
    assert ListItems(s, Some(filter)) == Response(OK, ItemList(MatchingName(s, filter)));
  }

  /** Of three items, only the middle one, whose name starts with `Mo`, matches `mo`. */
  lemma OnlyMiddleMatches(a: Item, b: Item, c: Item, filter: string)
    requires filter == "mo"
    requires forall j | 0 <= j < |a.name| :: a.name[j] != 'm' && a.name[j] != 'M'
    requires |b.name| >= 2 && b.name[0] == 'M' && b.name[1] == 'o'
    requires forall j | 0 <= j < |c.name| :: c.name[j] != 'm' && c.name[j] != 'M'
    ensures MatchingName([a, b, c], filter) == [b]
  {
    NoLetterM(a.name, filter);
    HasMo(b.name, filter);
    NoLetterM(c.name, filter);
    assert [c][1..] == [];
    assert MatchingName([c], filter) == [];
    assert [b, c][1..] == [c];
    assert MatchingName([b, c], filter) == [b];
    assert [a, b, c][1..] == [b, c];
  }

  /** A name starting with `Mo` contains `mo`. */
  lemma HasMo(name: string, mo: string)
    requires mo == "mo"
    requires |name| >= 2 && name[0] == 'M' && name[1] == 'o'
    ensures TextMatch.ContainsIgnoreCase(name, mo)
  {
    assert mo[0] == 'm' && mo[1] == 'o';
    assert TextMatch.RegionMatches(name, 0, mo);
  }

  /** A name without the letter m, in either case, does not contain `mo`. */
  lemma NoLetterM(name: string, mo: string)
    requires mo == "mo"
    requires forall j | 0 <= j < |name| :: name[j] != 'm' && name[j] != 'M'
    ensures !TextMatch.ContainsIgnoreCase(name, mo)
  {
    assert mo[0] == 'm';
    forall i: nat | i + 2 <= |name| ensures !TextMatch.RegionMatches(name, i, mo) {
      assert !TextMatch.CharEqualsIgnoreCase(name[i + 0], mo[0]);
    }
  }

  /**
   * A session against a freshly started server: filter, create, get, duplicate create,
   * delete, get of the deleted id, and the same delete again.
   */
  method Session() returns (log: seq<Response>)
    ensures log == [
      Response(OK, ItemList([Item(2, "Mouse")])),
      Response(Created, OneItem(Item(4, "Grape"))),
      Response(OK, OneItem(Item(4, "Grape"))),
      Response(Conflict, Error(DuplicateId)),
      Response(OK, Message(ItemDeleted)),
      Response(NotFound, Error(ItemNotFound)),
      Response(NotFound, Error(ItemNotFound))
    ]
  {
    var store := new ItemStore();
    SeedFilterMo(store.items, "mo");
    var listed := ListItems(store.items, Some("mo"));
    var created := store.Create(Some(Item(4, "Grape")));
    GetAfterAppend(Seed(), Item(4, "Grape"), 4);
    var got := GetItem(store.items, Some(4));
    var again := store.Create(Some(Item(4, "Grape2")));
    var deleted := store.Delete(Some(1));
    RemovalIsFinal(Seed() + [Item(4, "Grape")], 1);
    var gone := GetItem(store.items, Some(1));
    var deletedAgain := store.Delete(Some(1));
    log := [listed, created, got, again, deleted, gone, deletedAgain];
  }
}
