# Item store of the Ktor item service

A Dafny model of the in-memory item collection behind the `/items` routes of a small
Ktor HTTP server. The server keeps one ordered list of `Item(id, name)` records,
seeded with three items when the process starts. Four routes act on it:

- `GET /items?name=...` lists the items. A non-blank `name` filter keeps the items
  whose name contains it, ignoring case.
- `GET /items/{id}` returns the first item with that id.
- `POST /items` appends a new item unless its id is already taken.
- `DELETE /items/{id}` removes every item with that id.

Each route answers with a status (200, 201, 400, 404 or 409) and a JSON payload: items,
an `{error}` object or a `{message}` object.

Layout:

- `Wrappers.dfy`: `Option`. It stands for a path segment that may not parse as an
  integer, and for a request body that may not decode into an `Item`.
- `Items.dfy`: the `Item`, `Status`, `Body` and `Response` datatypes, the response
  messages, the seed collection and the "ids are unique" invariant.
- `TextMatch.dfy`: `isNullOrBlank` and `contains(filter, ignoreCase = true)`.
  `IndexOfIgnoreCase` is the search. `OccursIgnoreCase` is its reference definition
  ("some offset holds the filter").
- `Queries.dfy`: the read-only routes as functions of the current collection
  (`ListItems`, `GetItem`, with `MatchingName` and `Find`), and `WithoutId`, the
  specification of the removal done by delete.
- `Store.dfy`: the `ItemStore` class. Its `items` field is the shared list. `Create`
  and `Delete` update it in place. `RemoveIf` is the one-pass loop behind
  `removeIf`. `Session` replays a sample session against a fresh store.

The list and get routes do not change the collection, so they are functions over
`items`. Create and delete change it, so they are methods with `modifies this`. Each
route is modelled as one atomic step.

Delete removes every item with that id (`removeIf`, `Application.kt:118`). Under the
unique-id invariant that is exactly one item (`RemovalUnderUniqueIds`).

## Model

| member | source | states |
|---|---|---|
| `Items.Seed` | src/main/kotlin/Application.kt:27-33 | the starting collection has three items with pairwise distinct ids |
| `Items.AppendFreshKeepsUnique` | src/main/kotlin/Application.kt:103-106 | appending an item whose id is not taken keeps all ids distinct |
| `Items.UniqueCountAtMostOne` | src/main/kotlin/Application.kt:103-106 | under the invariant, at most one item carries any given id |
| `Items.HasId` | src/main/kotlin/Application.kt:103 | the front-to-back scan of `any` is true exactly when some index of the collection holds an item with the id |
| `Items.CountIdPositive` | src/main/kotlin/Application.kt:103 | some item carries the id (`any`) exactly when the count of items with that id is positive |
| `TextMatch.IndexOfIgnoreCase` | src/main/kotlin/Application.kt:73 | the result is -1 exactly when no offset from the start index holds the filter ignoring case; otherwise it is the first offset that does |
| `TextMatch.ToLower` | src/main/kotlin/Application.kt:73 | a folded character is never an upper-case letter; it is a lower-case letter exactly when the input was a letter of either case; it is the input or the input shifted by 32 |
| `TextMatch.ContainsIgnoreCase` | src/main/kotlin/Application.kt:73 | case-insensitive `contains` holds exactly when some offset of the name holds the filter, in both directions |
| `TextMatch.IsNullOrBlank` | src/main/kotlin/Application.kt:72 | an empty filter is blank, so it lists the whole collection; a filter holding an ASCII letter or digit is never blank |
| `TextMatch.ContainsIgnoresNeedleCase` | src/main/kotlin/Application.kt:73 | two filters that differ only in the case of their letters select the same names |
| `Queries.MatchingName` | src/main/kotlin/Application.kt:73 | `filter` never returns more items than are stored; `MatchingNameMembers`, `MatchingNameCounts` and `MatchingNameKeepsOrder` fix its result |
| `Queries.MatchingNameMembers` | src/main/kotlin/Application.kt:73 | an item is in the filtered list exactly when it is stored and its name contains the filter ignoring case |
| `Queries.MatchingNameCounts` | src/main/kotlin/Application.kt:73 | each matching item comes back as many times as it is stored, and a non-matching item never does |
| `Queries.MatchingNameKeepsOrder` | src/main/kotlin/Application.kt:73 | the filtered list is an order-preserving subsequence of the collection |
| `Queries.MatchingNameAppend` | src/main/kotlin/Application.kt:73 | filtering a concatenation is the concatenation of the filtered parts, so each item is judged on its own |
| `Queries.MatchingNameIdempotent` | src/main/kotlin/Application.kt:73 | filtering the filtered list again with the same filter changes nothing |
| `Queries.MatchingNameAllMatch` | src/main/kotlin/Application.kt:73 | when every name matches, the filter returns the whole collection |
| `Queries.ListItems` | src/main/kotlin/Application.kt:70-78 | always 200 with a list; an absent or blank filter gives exactly the collection in insertion order; otherwise the subsequence of items whose name contains the filter ignoring case, each such item included as many times as it is stored and no other item |
| `Queries.SubsequenceKeepsUnique` | src/main/kotlin/Application.kt:118 | dropping items from a collection with distinct ids leaves distinct ids |
| `Queries.Find` | src/main/kotlin/Application.kt:87 | none exactly when no item has the id; otherwise an item with that id at an index before which no item has it (the first match) |
| `Queries.FindUnique` | src/main/kotlin/Application.kt:87 | with distinct ids, `find` returns an item exactly when that item is stored under the id |
| `Queries.FindAfterAppend` | src/main/kotlin/Application.kt:87 | after appending an item with a fresh id, finding that id gives the item and every other lookup is unchanged |
| `Queries.GetItem` | src/main/kotlin/Application.kt:80-93 | 400 "Invalid id" when the id does not parse; 404 "Item not found" when no item has it; else 200 with the first item having it |
| `Queries.GetAfterAppend` | src/main/kotlin/Application.kt:103-107 | a get after a successful create returns the created item; gets of other ids are unchanged |
| `Queries.WithoutId` | src/main/kotlin/Application.kt:118 | the removal shortens the collection by exactly the number of items carrying the id |
| `Queries.WithoutIdMembers` | src/main/kotlin/Application.kt:118 | an item survives the removal exactly when it is stored under another id |
| `Queries.WithoutIdKeepsOrder` | src/main/kotlin/Application.kt:118 | the surviving items keep their original order |
| `Queries.WithoutIdAppend` | src/main/kotlin/Application.kt:118 | removal distributes over concatenation, so a single pass can decide each item on its own |
| `Queries.WithoutAbsentId` | src/main/kotlin/Application.kt:118-123 | removing an id no item carries leaves the collection unchanged |
| `Queries.RemovalUnderUniqueIds` | src/main/kotlin/Application.kt:118 | removal keeps ids distinct, and under that invariant removes exactly one item when the id is present and none otherwise |
| `Queries.RemovalIsFinal` | src/main/kotlin/Application.kt:118-123 | after removal no item has the id: a get answers 404 and repeating the removal changes nothing |
| `Store.RemoveIf` | src/main/kotlin/Application.kt:118 | the loop keeps exactly the specified survivors in order and reports a removal exactly when some item had the id |
| `Store.ItemStore.constructor` | src/main/kotlin/Application.kt:27-33 | the store starts with the seed collection and satisfies the unique-id invariant |
| `Store.ItemStore.Create` | src/main/kotlin/Application.kt:95-109 | 400 "Invalid request body" and no change when the body does not decode; 409 and no change when the id is taken; else 201 echoing the item, appended at the end and nothing else changed; keeps ids distinct |
| `Store.ItemStore.Delete` | src/main/kotlin/Application.kt:111-124 | 400 "Invalid id" and no change when the id does not parse; otherwise the new collection is the old one without the id's items; 200 "Item deleted" when some item had it, else 404 and no change; under the invariant, exactly one item fewer on success |
| `Store.SeedFilterMo` | src/main/kotlin/Application.kt:70-78 | on the starting collection, the filter `mo` lists only the mouse |
| `Store.Session` | src/main/kotlin/Application.kt:27-124 | a fresh server answers: filter `mo` gives the mouse; create 4 gives 201; get 4 gives the item; a second create of 4 gives 409; delete 1 gives 200; get 1 gives 404; delete 1 again gives 404 |

## Left out

- Server startup on Netty, the port and the JSON content negotiation setup (`Application.kt:35-42`, `126`) are I/O plumbing and are not modelled.
- The static HTML index page (`Application.kt:45-68`) is a constant document with no logic.
- Parsing the path segment with `toIntOrNull` is a standard-library call. It is an `Option<int>` input. Decoding the body with `receive<Item>()` is a library call too. It is an `Option<Item>` input, `None` standing for the exception.
- Item ids are Kotlin 32-bit `Int`s. The model uses unbounded `int`, since ids are only compared for equality and both inputs are already in range once parsed.
- `TextMatch.ToLower`: case folding covers the ASCII letters only. The JVM's `ignoreCase` comparison also folds non-ASCII letters.
- `TextMatch.IsWhitespace`: `isBlank` is modelled with an explicit list of whitespace characters (ASCII controls, the Unicode space, line and paragraph separators). It is not checked against the JVM's character tables.
- Thread safety and snapshot reads of the copy-on-write list (`Application.kt:12`, `27`) are about concurrency. Each request is one atomic step here. The race between the duplicate check and the append of two concurrent creates (`Application.kt:103-106`) is therefore out of scope.
- The listing's copy (`toList`) needs no counterpart, because a Dafny sequence is a value that later updates cannot alias.
- The unused `User` class and the response wrapper classes beyond their message strings (`Application.kt:18-24`) are not modelled.
- The HTTP status numbers appear only as `Items.Status.Code`. Rendering a response as JSON is not modelled.
