/**
 * The data model of the item service: the `Item` record, the HTTP responses the
 * routes send back, and the "ids are unique" invariant of the item collection.
 */
module Items {

  /** One stored item (`data class Item(val id: Int, val name: String)`). */
  datatype Item = Item(id: int, name: string)

  /** The HTTP status codes the item routes answer with. */
  datatype Status = OK | Created | BadRequest | NotFound | Conflict
  {
    function Code(): (c: int)
      ensures 200 <= c < 500
      ensures (c < 300) <==> (OK? || Created?)
    {
      match this
      case OK => 200
      case Created => 201
      case BadRequest => 400
      case NotFound => 404
      case Conflict => 409
    }
  }

  /** The JSON payloads: a list of items, one item, `ErrorResponse` or `MessageResponse`. */
  datatype Body =
    | ItemList(items: seq<Item>)
    | OneItem(item: Item)
    | Error(error: string)
    | Message(message: string)

  datatype Response = Response(status: Status, body: Body)

  const InvalidId := "Invalid id"
  const InvalidBody := "Invalid request body"
  const ItemNotFound := "Item not found"
  const DuplicateId := "Item with this ID already exists"
  const ItemDeleted := "Item deleted"

  /**
   * Some item of `s` carries `id` (`items.any { it.id == id }`), scanning from the
   * front and stopping at the first match.
   */
  predicate HasId(s: seq<Item>, id: int)
    ensures HasId(s, id) <==> exists i | 0 <= i < |s| :: s[i].id == id
  {
    if s == [] then false
    else if s[0].id == id then true
    else
      assert forall i | 0 <= i < |s[1..]| :: s[1..][i] == s[i + 1];
      HasId(s[1..], id)
  }

  /** No two items of `s` share an id. */
  predicate Unique(s: seq<Item>)
  {
    forall i, j | 0 <= i < j < |s| :: s[i].id != s[j].id
  }

  /** Number of items of `s` whose id is `id`. */
  function CountId(s: seq<Item>, id: int): nat
  {
    if s == [] then 0 else (if s[0].id == id then 1 else 0) + CountId(s[1..], id)
  }

  lemma {:induction false} CountIdPositive(s: seq<Item>, id: int)
    ensures CountId(s, id) > 0 <==> HasId(s, id)
  {
    if s != [] {
      CountIdPositive(s[1..], id);
      if s[0].id != id && HasId(s, id) {
        var i :| 0 <= i < |s| && s[i].id == id;
        assert s[1..][i - 1].id == id;
      }
    }
  }

  lemma UniqueTail(s: seq<Item>)
    requires Unique(s) && s != []
    ensures Unique(s[1..]) && !HasId(s[1..], s[0].id)
  {
    forall i, j | 0 <= i < j < |s[1..]| ensures s[1..][i].id != s[1..][j].id {
      assert s[1..][i] == s[i + 1] && s[1..][j] == s[j + 1];
    }
    forall i | 0 <= i < |s[1..]| ensures s[1..][i].id != s[0].id {
      assert s[1..][i] == s[i + 1];
    }
  }

  /** Appending an item with a fresh id keeps the ids unique. */
  lemma AppendFreshKeepsUnique(s: seq<Item>, x: Item)
    requires Unique(s) && !HasId(s, x.id)
    ensures Unique(s + [x])
  {
    forall i, j | 0 <= i < j < |s + [x]| ensures (s + [x])[i].id != (s + [x])[j].id {
      if j == |s| {
        assert (s + [x])[i] == s[i];
      } else {
        assert (s + [x])[i] == s[i] && (s + [x])[j] == s[j];
      }
    }
  }

  /** An id occurs in a concatenation exactly when it occurs in one of the parts. */
  lemma HasIdAppend(a: seq<Item>, b: seq<Item>, id: int)
    ensures HasId(a + b, id) <==> HasId(a, id) || HasId(b, id)
  {
    if HasId(a + b, id) {
      var i :| 0 <= i < |a + b| && (a + b)[i].id == id;
      if i >= |a| { assert b[i - |a|] == (a + b)[i]; }
    }
    if HasId(b, id) {
      var i :| 0 <= i < |b| && b[i].id == id;
      assert (a + b)[|a| + i] == b[i];
    }
    if HasId(a, id) {
      var i :| 0 <= i < |a| && a[i].id == id;
      assert (a + b)[i] == a[i];
    }
  }

  lemma {:induction false} UniqueCountAtMostOne(s: seq<Item>, id: int)
    requires Unique(s)
    ensures CountId(s, id) <= 1
  {
    if s != [] {
      UniqueTail(s);
      UniqueCountAtMostOne(s[1..], id);
      if s[0].id == id {
        forall i | 0 <= i < |s[1..]| ensures s[1..][i].id != id {
          assert s[1..][i] == s[i + 1];
        }
        CountIdPositive(s[1..], id);
      }
    }
  }

  /** The three items the process starts with. */
  function Seed(): (s: seq<Item>)
    ensures |s| == 3 && Unique(s)
  {
    [Item(1, "Keyboard"), Item(2, "Mouse"), Item(3, "Headphones")]
  }
}
