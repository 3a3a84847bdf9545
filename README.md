# Organisation forest — a verified Dafny model

This project models the in-memory organisation store behind the mock
`/organization` routes in `mock/organization.ts`.

A company, its departments and its teams are kept as a forest of records.
Each record has:

- an `id` and a `parentId`;
- a name, a code and a type (company, department or team);
- a sort key and a status;
- optional contact fields;
- two timestamps;
- an ordered list of `children`.

The routes operate on this forest:

- the tree route returns the forest;
- the list route returns a filtered copy (`filterTree`);
- the detail route looks a record up by id (`findNode`);
- the create route builds a record with the next value of a counter and hangs it under a parent or at the root (`addToParent`);
- the edit route merges a form into a record (`updateNode`);
- the delete route cuts a record out with its whole subtree (`deleteNode`).

Layout, one module per file:

- `tree.dfy` (`OrgTree`)
  - The record (`Node`), the form (`Form`) and the listing views that the operations are specified against.
  - `Outline` is the pre-order listing of `(depth, record without children)` pairs. `Ids` is the set of ids and `Size` the node count. `UniqueIds` says no id occurs twice.
  - An equality between two outlines says exactly which records changed, appeared or disappeared, and that nothing else moved.
- `search.dfy` (`OrgSearch`): `FindNode`, and its place in the pre-order listing.
- `filter.dfy` (`OrgFilter`)
  - The query options and the match rules.
  - `FilterTree`, with a reference definition of what it must return: `KeptOutline`, the listing restricted to records that match or have a matching descendant.
- `insert.dfy`, `update.dfy`, `delete.dfy`: the three recursive helpers that change the forest.
  - Each is a pure specification function: `Attach`, `Patch`, and `Remove` with `RemoveBelow`.
  - Each also has a loop method that does what the source does: `AddToParent`, `UpdateNode`, `DeleteNode`. A loop method scans the siblings, returns early and recurses. It is proved equal to its function.
  - Lemmas state what each function keeps and what it changes.
  - `RemoveFirst` is a plain pre-order removal. With unique ids it is proved to remove the same node as `deleteNode`'s search, which checks each level before going deeper.
- `seed.dfy` (`OrgSeed`): the eight seed records, facts about their ids, and two list-route scenarios.
- `store.dfy` (`OrgRoutes`)
  - The class `OrgStore` holds the forest and the id counter that the routes share, and has one method per route.
  - `Valid()` says that ids are unique and that every id is below the counter. The constructor establishes it and every changing route keeps it.

### Behaviour of the code the model keeps

- **Insert under a missing parent.** When the parent id is truthy but no record carries it:
  - the create route drops the new record;
  - it still advances the counter;
  - it still answers `success: true`.

  The route does not answer "not found" here, although the other routes do for a missing id. The model follows the code: `OrgStore.Insert` always returns `true`.
- **`parentId` can disagree with the tree.** Two routes let a record's stored `parentId` differ from its actual position:
  - The create route stores `parentId` as submitted, so a root created with `parentId` 0 carries 0, not null.
  - The edit route overwrites `parentId` with `Object.assign` but never moves the record.

  So "a child's `parentId` is its owner's id" is not an invariant of the store, and the model does not claim it.
- **Duplicate ids.** `deleteNode` looks through a whole sibling list before descending. When ids are not unique, it can remove a different record than the one `findNode` returns (`OrgDelete.DuplicateIdsDiverge`). With unique ids, which `Valid()` guarantees, the two agree (`OrgDelete.RemoveAgrees`).

## Model

| member | source | states |
|---|---|---|
| `OrgTree.TypeName` | src/api/organization.ts:9 | the type string a record of each organisation level carries is non-empty |
| `OrgTree.TypeNameInjective` | src/api/organization.ts:9 | the three levels carry three different type strings, so a type string names exactly one level |
| `OrgTree.OutlineInjective` | src/api/organization.ts:4-19 | a forest of records with nested `children` is determined by its pre-order listing of records with their depths, so the listing equalities stated for the routes below fix the whole resulting tree |
| `OrgSearch.FindNode` | mock/organization.ts:187-196 | the record returned carries the requested id; nothing is returned exactly when no record in the forest carries it |
| `OrgSearch.FindNodeIsFirstInPreorder` | mock/organization.ts:187-196 | the record returned is the first one carrying the id in pre-order (a record before its children, siblings in order); the listing from there on is the listing of the returned record's subtree, and the entry after it, if any, is no deeper than that record, so the returned subtree is exactly the one in the forest, neither cut short nor extended |
| `OrgFilter.IncludesIffOccurs` | mock/organization.ts:157-158 | the substring test used for `name` and `code` holds exactly when the needle occurs at some position of the record's field |
| `OrgFilter.MatchesIffCriteria` | mock/organization.ts:157-165 | a record passes the list route's test exactly when every supplied criterion holds: the `name` and `code` needles occur in its fields, `type` equals its type string and `status` equals its status; a blank or absent criterion holds of every record |
| `OrgFilter.TypeCriterionSelects` | mock/organization.ts:159 | a `type` criterion naming a level lets through only records of that level |
| `OrgFilter.FilterTree` | mock/organization.ts:151-171 | the filtered forest never has more roots than the forest it filters |
| `OrgFilter.FilterTreePruned` | mock/organization.ts:165-168 | every record returned, at any depth, matches every supplied criterion or still has children, so every returned leaf matches |
| `OrgFilter.FilterTreeNonEmpty` | mock/organization.ts:165-170 | the result is empty exactly when no record of the forest matches |
| `OrgFilter.FilterTreeKeepsExactly` | mock/organization.ts:151-171 | the result lists exactly the records that match or have a matching descendant, each with its own unchanged fields, at its original depth and in its original order |
| `OrgFilter.FilterTreeNoCriteria` | mock/organization.ts:157-163 | with no name, code, type or status given, the whole forest comes back unchanged |
| `OrgInsert.NewNode` | mock/organization.ts:219-225 | the new record has the given id, the submitted parent id, both timestamps set to the current time and no children; on its own it is a forest with the single id it carries |
| `OrgInsert.Truthy` | mock/organization.ts:228 | JavaScript truthiness of the submitted parent id, a number or null: it holds exactly when the id is present and not 0, and decides whether the record is placed under a parent or at the root |
| `OrgInsert.Attach` | mock/organization.ts:229-241 | a record is placed exactly when some record carries the parent id; when none does, the forest is unchanged |
| `OrgInsert.AttachIds` | mock/organization.ts:229-241 | placing the record adds exactly its ids and nodes to the forest; a failed search adds nothing |
| `OrgInsert.AttachKeepsUnique` | mock/organization.ts:229-241 | placing a record whose ids are new keeps the forest's ids unique |
| `OrgInsert.AttachFindsParent` | mock/organization.ts:231-234 | afterwards the parent is found with the new record appended as its last child and its other children unchanged |
| `OrgInsert.AttachFindsNew` | mock/organization.ts:229-242 | afterwards the detail lookup of the new id returns the new record |
| `OrgInsert.AttachOutline` | mock/organization.ts:229-241 | the new record is listed right after the parent's last descendant, one level below the parent; every other record keeps its fields, depth and order |
| `OrgInsert.AddToParent` | mock/organization.ts:229-241 | the sibling scan with early return and recursion into children produces exactly the forest and the found flag that `Attach` specifies |
| `OrgUpdate.Assign` | mock/organization.ts:262-264 | every required form field overwrites the record's; an optional one overwrites it only when present; `updateTime` becomes now; id, creation time and children are kept |
| `OrgUpdate.AssignIdempotent` | mock/organization.ts:262-264 | merging the same form twice at the same time equals merging it once |
| `OrgUpdate.Patch` | mock/organization.ts:259-272 | a record is edited exactly when some record carries the id; when none does, the forest is unchanged |
| `OrgUpdate.PatchIds` | mock/organization.ts:259-272 | an edit keeps the forest's set of ids and its number of records |
| `OrgUpdate.PatchKeepsUnique` | mock/organization.ts:259-272 | an edit keeps the forest's ids unique |
| `OrgUpdate.PatchFinds` | mock/organization.ts:259-272 | afterwards the detail lookup of the id returns the old record merged with the form, subtree included |
| `OrgUpdate.PatchOutline` | mock/organization.ts:259-272 | exactly one listing entry changes, the first carrying the id: it is merged with the form and keeps its depth and position |
| `OrgUpdate.UpdateNode` | mock/organization.ts:259-272 | the sibling scan with early return and recursion produces exactly the forest and the found flag that `Patch` specifies |
| `OrgDelete.IndexOf` | mock/organization.ts:294 | -1 when no sibling carries the id, otherwise the position of the first sibling that does |
| `OrgDelete.Remove` | mock/organization.ts:293-303 | a record is removed exactly when some record in the forest carries the id; when none does, the forest is unchanged |
| `OrgDelete.RemoveBelow` | mock/organization.ts:299-302 | searching the siblings' children finds something only when the id occurs; when no sibling carries the id, it finds something exactly when the id occurs deeper; a failed search changes nothing |
| `OrgDelete.RemoveFirstFound` | mock/organization.ts:293-303 | the pre-order removal removes something exactly when the id occurs in the forest |
| `OrgDelete.RemoveAgrees` | mock/organization.ts:293-303 | with unique ids, `deleteNode`'s level-by-level search removes the same subtree as a pre-order removal |
| `OrgDelete.RemoveFirstIds` | mock/organization.ts:293-303 | the removal takes away exactly the ids and the number of nodes of the subtree that the detail lookup returns |
| `OrgDelete.RemoveFirstKeepsUnique` | mock/organization.ts:293-303 | with unique ids the result has unique ids, and none of them belongs to the removed subtree |
| `OrgDelete.RemoveFirstOutline` | mock/organization.ts:293-303 | the removed subtree's entries, which start at the first entry carrying the id, leave the listing; all other entries keep their depth and order |
| `OrgDelete.RemoveSubtree` | mock/organization.ts:293-303 | with unique ids, `deleteNode` removes the record and its whole subtree and nothing else: listing, id set and uniqueness |
| `OrgDelete.RemoveIsFinal` | mock/organization.ts:293-303 | with unique ids, after a delete the lookup no longer finds the id and a second delete reports failure |
| `OrgDelete.DuplicateIdsDiverge` | mock/organization.ts:293-303 | with a duplicated id, `deleteNode` removes a root while the detail lookup returns a deeper record with the same id |
| `OrgDelete.DeleteNode` | mock/organization.ts:293-303 | `findIndex` then `splice`, else the loop over the siblings' children with early return, produces exactly the forest and the found flag that `Remove` specifies |
| `OrgSeed.SeedIds` | mock/organization.ts:5-128 | the seed holds ids 1 to 8, each once, all positive and below the first counter value 9, in eight records |
| `OrgSeed.ListInactive` | mock/organization.ts:151-171 | on the seed, filtering by status 0 returns exactly the path company 1, department 2, team 6 |
| `OrgSeed.ListByCode` | mock/organization.ts:151-171 | on the seed, filtering by code "MKT" returns the company holding only the marketing department, with both of its teams |
| `OrgRoutes.OrgStore.constructor` | mock/organization.ts:5-128 | the store starts with the seed forest and counter 9, and its invariant holds |
| `OrgRoutes.OrgStore.GetTree` | mock/organization.ts:135-140 | the tree route returns the stored forest itself |
| `OrgRoutes.OrgStore.GetList` | mock/organization.ts:148-179 | the list route returns the filtered forest `FilterTree` computes: the kept records in order, each with its own fields, and every one of them matches or has children; it is empty exactly when nothing matches; with no criteria it is the whole forest; the store is left unchanged |
| `OrgRoutes.OrgStore.GetById` | mock/organization.ts:198-210 | the detail route returns what `FindNode` returns: "not found" exactly when no record carries the id; otherwise the first such record in pre-order, with exactly its subtree as it stands in the forest |
| `OrgRoutes.OrgStore.Insert` | mock/organization.ts:218-251 | always reports success and advances the counter by one; the new record takes the old counter as its id; a truthy parent id places it as the parent's last child, otherwise as the last root; it is then found by its id; under a missing parent the forest is unchanged; no other record moves; the invariant is kept |
| `OrgRoutes.OrgStore.Update` | mock/organization.ts:258-285 | reports success exactly when the id exists; then only that record changes, merged with the form; ids, shape and counter are unchanged; the invariant is kept |
| `OrgRoutes.OrgStore.Delete` | mock/organization.ts:292-316 | reports success exactly when the id exists; then exactly that record's subtree leaves the forest, other records keeping their order; the id is gone afterwards; the invariant is kept |

## Left out

- The HTTP plumbing is not modelled: `defineFakeRoute`, the route table, the request objects and the `{ success, message, data }` response envelopes. Each route is a method returning a flag or an optional record.
- The `Number(...)` coercion of route parameters and of the `status` query value is not modelled. Ids and status are integers. A non-numeric value, which would give `NaN` and match nothing, is not represented. The create route's parent id comparison has no coercion, and the model uses the integer as given.
- The clock (`new Date().toLocaleString()`) becomes the parameter `now`. Both timestamps of a new record receive the same value, although the source reads the clock twice.
- The deep copy `JSON.parse(JSON.stringify(...))` of the list route needs no model: records are values, so filtering cannot change the store.
- Records are values, not shared objects. In-place mutation is modelled by replacing the whole forest. Aliasing is not captured, e.g. a caller of the tree route holding the live array and seeing later edits.
- A missing `children` field is identified with an empty list. Every recursion in the source treats both the same way, and `filterTree` normalises to an empty list anyway.
- The edit route's body is a full `Form`: `parentId`, `name`, `code`, `type`, `sort` and `status` are always present. A body that omits one of them is not represented. `Object.assign` would keep the record's old value for an omitted key; the model only captures this for the optional contact fields. The same holds for the create route: `NewNode` takes a full `Form`, so a record created without a `name` or a `code` is not represented. In the source such a record makes a later list request with a name or code criterion throw at mock/organization.ts:157-158, since `includes` is called on an undefined field; the model's `Matches` is total.
- `idCounter` is a JavaScript number, so `idCounter++` stops producing new values at 2^53 and later records would share an id. The model's counter is an unbounded integer. `OrgRoutes.OrgStore.Valid` and the freshness of created ids rely on that.
- The create and edit routes are modelled only for the form fields. A request body carrying other keys, e.g. `id` or `children`, would have those keys copied too. The model does not represent such bodies.
- `status` is any integer. The source declares 0 or 1 but never enforces it.
- `src/api/organization.ts` is only used for the field list. Its `http.request` wrappers and `src/router/modules/system.ts` are not part of this model.
