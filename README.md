# flora4fauna: the donation tree's growth allocator and the donation replication, in Dafny

flora4fauna draws one leaf per donation on a growing tree. This project models the two parts of it that are logic rather than rendering or plumbing.

- **The growth allocator** (`src/tree.ts`). The `addDonation` closure of `buildTreeSpriteGraph` keeps this state:
  - the trunk sprites, the trunk top and the tree top;
  - the next anchor height on each side, and which side the next branch goes on;
  - the active branch and the camera clamp limit;
  - the leaf store, keyed by donation id.

  On each donation it does the following:
  - starts a new branch when none is active or the active one is full;
  - grows the trunk when headroom is short, and moves the clamp limit up the tree when the trunk passes it;
  - places the branch on alternating sides;
  - upserts the donation's leaf.

  The stored documents are replayed first, then every insert event. The allocator is modelled twice:
  - on values, in `tree.dfy` (module `Tree`): `Growth`, `AfterDonation`, `AfterDonations`, and their invariant `Inv`;
  - as the imperative object the closure really is, in `allocator.dfy` (module `Allocator`): class `GrowthAllocator` with class `Branch`. Every method of the class is proved to move its fields exactly as the value-level functions say. The lemmas about those functions then carry over to the object.
- **The replication of the `donations` collection** (`src/main.ts`), in `replication.dfy` (module `Replication`) and `schema.dfy` (module `Schema`):
  - the pull handler: query options, documents and next checkpoint;
  - paging through the whole record store with that handler (`IsNewestPage`). Beside it is a corrected paging rule (`IsOldestPage`), described under "Findings";
  - the mapping of a live subscription event to a one-document batch;
  - the collection's JSON schema.

Some terms used below:
- **Coordinates** are reals, because the source computes `height / 2`.
- **Sprite heights and branch widths** are natural numbers.
- **Every random draw** is a method or function argument, limited to the range of the source's draw. These are `Draw(variant, gap)` with `variant < |pool|` and `gap < 1000`, and the two start offsets `< 200`.
- **`updated`** is a string, ordered lexicographically (`Replication.Before`).

The leaf store is only ever written. When the tree is built, every stored document goes through `addDonation` again (src/tree.ts:170-180), and that call overwrites the document's stored leaf with a fresh placement. `Tree.StoredLeafReplaced` exhibits this, and `Tree.LastWriteWins` states the general rule.

## Model

| member | source | states |
|---|---|---|
| Schema.FirstViolation | src/main.ts:184-191 | No violation exactly when every listed field is present with its declared type. A reported violation names a listed field that is missing (`Missing`) or present with the wrong type (`WrongType`). |
| Schema.RequiredFieldsOk | src/main.ts:176-191 | Checking the `required` list entry by entry is the same as checking all six properties with their declared types. |
| Schema.Validate | src/main.ts:172-191 | A record is accepted exactly when it conforms: all six required properties present, `amount` a number, the other five strings, and `id` at most 15 characters. The accepted donation carries the record's values for all six properties. |
| Schema.EncodeRoundTrip | src/main.ts:176-191 | A donation stored as a record validates back to itself when its id has at most 15 characters. Otherwise the record is rejected with the id's length. |
| Schema.ExtraPropertiesIgnored | src/main.ts:184-191 | Adding or changing a property outside the required six never changes the verdict. |
| Replication.BeforeIrreflexive | src/main.ts:220 | No `updated` value sorts strictly before itself. |
| Replication.BeforeTransitive | src/main.ts:220 | The order on `updated` is transitive. |
| Replication.BeforeTotal | src/main.ts:220 | Any two `updated` values are equal, or one sorts before the other. |
| Replication.NotAfterTransitive | src/main.ts:220 | The non-strict order on `updated` is transitive. |
| Replication.BeforeNotAfter | src/main.ts:220-225 | Strictly before, then not after, gives strictly before. |
| Replication.FilterCursor | src/main.ts:223-225 | Any cursor read back out of a filter rebuilds exactly that filter. |
| Replication.FilterRoundTrip | src/main.ts:223-225 | The filter built from a checkpoint value reads back as that value, so the filter determines the checkpoint. |
| Replication.Options | src/main.ts:219-225 | The sort is always newest first (`-updated`). The filter is present exactly when a checkpoint is, and it then selects the records updated after that checkpoint. |
| Replication.Request | src/main.ts:227-229 | The list call asks for page 1, with `batchSize` records per page. It filters exactly when there is a checkpoint. |
| Replication.FirstIsNewest | src/main.ts:220 | In a page sorted newest first, no record is newer than the first one. |
| Replication.AsDocuments | src/main.ts:232-235 | Returns one document per fetched item, in the same order, each carrying that item and marked not deleted. |
| Replication.Records | src/main.ts:232-235 | Taking the records back out of the documents keeps their number and order. |
| Replication.DocumentsRoundTrip | src/main.ts:232-235 | Adding the `_deleted` flag loses no item and reorders nothing. |
| Replication.Pull | src/main.ts:218-241 | The documents are the fetched items in order, none deleted. A non-empty page returns the first item's `updated` as the checkpoint. An empty page returns the incoming checkpoint unchanged, absent or not. |
| Replication.LiveBatch | src/main.ts:203-207 | A live event gives one non-deleted document holding the record, with the record's `updated` as the checkpoint. |
| Replication.LiveBatchIsSingletonPull | src/main.ts:203-207 | A live event's batch is exactly what a pull returning only that record would give. |
| Replication.PullAdvances | src/main.ts:218-241 | Assume the store honours the sort and filter built from the checkpoint. Then the new checkpoint is no earlier than the old one, and no returned record is newer than it. A non-empty page moves a present checkpoint strictly forward. |
| Replication.CheckpointNeverRegresses | src/main.ts:218-241 | Over any run of pulls whose pages honour their options, the checkpoint never moves backwards. |
| Replication.EmptyPullsKeepCheckpoint | src/main.ts:236-239 | Any run of empty pages leaves the checkpoint exactly where it was. |
| Replication.NotAfterBefore | src/main.ts:220-225 | Not after, then strictly before, gives strictly before. |
| Replication.LeftBehind | src/main.ts:218-241 | Once the checkpoint has reached `u`, every record on every later page that honours its options is strictly newer than `u`. A record updated at or before `u` is never pulled again. |
| Replication.NewestFirstLosesRecord | src/main.ts:218-241 | Take a store of two records updated at "2" and "1", with batches of one and no checkpoint. The newer record alone is a valid first page, and the checkpoint becomes "2". The older record is on no page of any later run. |
| Replication.KeyBeforeIrreflexive | src/main.ts:218-241 | Under the corrected paging rule, no cursor sorts strictly before itself. |
| Replication.KeyBeforeTransitive | src/main.ts:218-241 | Under the corrected paging rule, the cursor order (`updated`, then `id`) is transitive. |
| Replication.LastIsNewest | src/main.ts:218-241 | Under the corrected paging rule, every record on an ascending page has a key at or before the last record's key. |
| Replication.OldestPageSkipsNothing | src/main.ts:218-241 | Under the corrected paging rule, each store record past the old cursor is either on the page or still past the new cursor. A page shorter than the batch size holds every record past the cursor. A non-empty page moves the cursor strictly forward, and no record on the page is past the new cursor. |
| Replication.NonEmptyPageShrinks | src/main.ts:218-241 | Under the corrected paging rule, a non-empty page leaves strictly fewer store records past the cursor. |
| Replication.OldestPullsDeliverAll | src/main.ts:218-241 | Under the corrected paging rule, a run of pulls that ends with a page shorter than the batch size has delivered every store record past its starting cursor. |
| Replication.OldestPullsEventuallyDeliver | src/main.ts:218-241 | Under the corrected paging rule, with batches of at least one, any run of more pulls than there are records past the cursor delivers every one of them. |
| Tree.InitialTrunk | src/tree.ts:70-86 | The first `n` trunk segments alternate the two textures by index parity, each with its texture's height. They stand on the base and each sits on the one below. |
| Tree.Init | src/tree.ts:73-115 | The built tree satisfies the invariant. It has two trunk segments on the base, with the trunk top `base + mid01 + mid02` above the tree's bottom. Both anchors are at most 199 above half way up the second segment. The left side comes first, no branch is active, the clamp limit is 0, and the leaf store is as persisted. |
| Tree.ExtendTrunk | src/tree.ts:128-151 | Adds one segment exactly when headroom is short, keeping the old trunk as a prefix. The trunk top moves up the tree (its y decreases) by the second texture's height. The clamp limit changes only when the new top passes it, and then goes above that top. Nothing else changes. |
| Tree.AttachBranch | src/tree.ts:153-166 | The new branch becomes active and empty and goes on the side the flag names, at that side's anchor and the trunk centre. That anchor moves up the tree (its y decreases) by width + 600 + gap, the other anchor stays, and the flag flips. Nothing else changes. |
| Tree.Deliver | src/tree.ts:169-175 | The active branch hands out its next layout slot and its fill grows by one. The leaf is upserted under the donation id, and the trunk and branches are left alone. |
| Tree.AfterDonation | src/tree.ts:121-176 | After a call, the leaf store's keys are the old keys plus the donation id. Every other leaf is unchanged. The donation's leaf is the slot the active branch just filled. |
| Tree.ExtendTrunkKeepsInv | src/tree.ts:128-140 | Growing the trunk keeps it contiguous, with only second-texture segments above the first, and keeps the tree top on the trunk top. |
| Tree.AttachBranchKeepsBranchesOk | src/tree.ts:153-165 | Attaching a branch keeps the sides alternating from the left. On each side, every branch stays at least its width plus 600 below the next one, and below the side's pending anchor. |
| Tree.AttachBranchKeepsInv | src/tree.ts:153-166 | Attaching a branch keeps the whole invariant. |
| Tree.DeliverKeepsInv | src/tree.ts:169 | Filling a slot keeps the whole invariant. |
| Tree.AfterDonationKeepsInv | src/tree.ts:121-176 | Every call keeps the trunk, branch and active-branch invariant. |
| Tree.StableWhenActive | src/tree.ts:122-176 | With a non-full active branch, a call changes none of the following: trunk, trunk top, tree top, anchors, side flag, branch list, clamp limit. Only the branch's fill grows by one. |
| Tree.NewBranchAlternates | src/tree.ts:153-165 | A call that needs a branch adds exactly one, on the side the flag names, and flips the flag. The new branch of the drawn kind has taken this donation. |
| Tree.NewBranchOppositeSide | src/tree.ts:153-165 | Under the invariant, a new branch goes on the opposite side from the previous one. |
| Tree.NewBranchAnchor | src/tree.ts:153-165 | The new branch sits at its side's anchor on the trunk centre. That anchor's y decreases by at least width + 600 and less than width + 1600, and the other side's anchor stays. |
| Tree.TrunkExtension | src/tree.ts:128-140 | At most one segment is added per call, exactly when a branch is made while headroom is short. It is the second texture and sits on the old trunk top. The y of the trunk top and of the tree top decreases by its height. |
| Tree.ClampLimit | src/tree.ts:142-143 | The clamp limit's y never increases, so the limit never moves down the tree. It changes exactly when a new trunk top passes it, and then becomes 2000 above that top. |
| Tree.StepKeeps | src/tree.ts:121-176 | In one call neither the trunk top's y nor the clamp limit's y increases: neither moves down the tree. The trunk and the branch list each gain at most one element, at the end. |
| Tree.RunKeeps | src/tree.ts:121-184 | Over any run of calls, the trunk top and the clamp limit never move down the tree. The trunk and the branch list only grow at the end, by at most one per call. The leaf store gains exactly the run's ids and keeps every other leaf. |
| Tree.RunKeepsInv | src/tree.ts:121-184 | Any run of calls keeps the invariant. |
| Tree.AfterDonationsAppend | src/tree.ts:178-184 | Running the stored documents, then the insert events, is running their concatenation. |
| Tree.LastWriteWins | src/tree.ts:169-175 | A donation's leaf is the slot its own call filled. Later calls for other ids leave it as placed. |
| Tree.GrowthFromStart | src/tree.ts:73-184 | From the built tree, any run of calls puts its branches left, right, left, and so on. The trunk top's y never increases, the clamp limit stays at y 0 or higher up the tree, and gives every id a leaf. |
| Tree.StoredLeafReplaced | src/tree.ts:178-180 | Replaying a stored document overwrites its already stored leaf with a new placement. |
| Allocator.Branch.constructor | src/tree.ts:123-125 | A new branch of the drawn kind starts empty. |
| Allocator.Branch.AddDonation | src/tree.ts:169 | A non-full branch hands out the next slot of its layout, and its fill grows by one. |
| Allocator.GrowthAllocator.constructor | src/tree.ts:72-115 | The trunk-building loop and the initial state give exactly `Tree.Init`, so the object starts valid. |
| Allocator.GrowthAllocator.GrowTrunk | src/tree.ts:128-151 | The trunk step moves the object's state exactly as `Tree.ExtendTrunk` says. |
| Allocator.GrowthAllocator.PlaceBranch | src/tree.ts:153-166 | The branch placement moves the object's state exactly as `Tree.AttachBranch` says. The branch object is placed at its recorded anchor. |
| Allocator.GrowthAllocator.PlaceLeaf | src/tree.ts:169-175 | The leaf step moves the object's state exactly as `Tree.Deliver` says. |
| Allocator.GrowthAllocator.AddDonation | src/tree.ts:121-176 | One call moves the object's state exactly as `Tree.AfterDonation` says and keeps it valid. |
| Allocator.GrowthAllocator.Replay | src/tree.ts:178-180 | The replay loop over the stored documents gives `Tree.AfterDonations` of their calls, in query order. |
| Allocator.GrowthAllocator.OnInsert | src/tree.ts:182-184 | Each insert event is one `addDonation` call for the event's document id. |
| Allocator.GrowthAllocator.Session | src/tree.ts:178-184 | All stored documents are placed before any insert event. The whole session is `Tree.AfterDonations` of the documents' calls followed by the events' calls. |

## Left out

- Pixi rendering: sprites, containers, z-order, culling, and the viewport setup and resize handling (src/main.ts:23-134). These are drawing, not allocation.
- Texture loading. `Sprite.from(texture).height` becomes a height per texture in `Tree.Config`.
- The branch angles `280/80 + randomNumberFromInterval(-5, 5)` (src/tree.ts:13-16, 155, 161). This is floating-point decoration that no other state depends on.
- The concrete branch kind Branch01. It is not part of this model. A branch kind is its bounds' width plus a non-empty layout of leaves, handed out one per donation. `full` means every slot is taken.
- The value of `actualTrunkCenter` (src/tree.ts:117-119) is a fixed x in `Tree.Config`.
- The viewport clamp plugin calls (src/tree.ts:145-149). They remove the clamp plugin and re-install a clamp that does not use the limit. The limit is modelled only as the threshold that triggers them.
- Leaf store I/O. The store is an in-memory map, and the asynchronous `upsert` is taken to complete in call order. Persisting and reading it back are not modelled: the constructor takes the stored leaves.
- The RxDB replication engine, the local store's upsert and first-insert rules, and `insert$`. `Allocator.GrowthAllocator.Session` takes the insert events as a finite list, one `addDonation` call per event.
- The PocketBase network: the list call is replaced by the items it returned; the realtime subscription and its teardown (src/main.ts:201-212) are replaced by the record each event carries. The event's action (create, update or delete) is not modelled, because the source ignores it and marks every event's document not deleted.
- JSON-schema engine details beyond the listed constraints: the order in which it reports several errors, and its handling of non-string ids. `Schema.Validate` reports the first violation in `required` order.
- The `buildTreeSpriteGraph` call site in src/main.ts:140, whose argument list does not match the definition.
- The `Math.floor(Math.random() * n)` draws themselves. They are inputs whose range is that of the draw.
- The record store's list call is modelled as a relation between the store and the page (`Replication.IsNewestPage`), not as a function. The store's order among records with equal `updated` values is left open.
- Replication.PullAdvances: states only that the checkpoint moves forward, not that every record is delivered. The rule as written does not deliver every record; see "Findings".
- `Replication.Pull` stays as written, and the corrected paging rule (`Replication.IsOldestPage`, `Replication.NextCursor`) is a separate definition. No other part of the model pulls pages.

## Findings

| source | as written | input that shows it | evidently intended | confidence | as-written member | corrected member |
|---|---|---|---|---|---|---|
| src/main.ts:218-241 | The handler asks for page 1 of `batchSize` records sorted newest first (`-updated`) and past the checkpoint. It then takes the first (newest) item's `updated` as the next checkpoint. When more records are past the checkpoint than fit in a batch, the older ones are never pulled. | Store records `a` updated "2" and `b` updated "1"; `batchSize` 1; no checkpoint. The first page is `[a]` and the checkpoint becomes "2", so `b` is excluded from every later page. | Page oldest first, sorted by `updated` and then `id`. The cursor is the last record's (`updated`, `id`), and the filter selects records strictly past that cursor. Every record is then delivered. | high; not executed | Replication.NewestFirstLosesRecord | Replication.OldestPullsEventuallyDeliver |
