# Digital asset manager: folders, tags and assets

This project is a Dafny model of the request handlers at the heart of a
digital-asset-manager backend (Express with Mongoose on MongoDB):

- the folder controller: list, read, create, update and delete folders, and
  the nested folder tree;
- the tag controller: list, read, create, rename and delete tags (deleting
  pulls the tag out of every asset), and the popular-tags ranking;
- the asset controller: the filtered, sorted and paginated listing, read,
  create, update and delete, and the download and view counters;
- the Folder, Tag and Asset schemas the handlers save through, with their
  defaults, the `trim`/`lowercase` setters and the `required` and `unique`
  checks, and the request-validation schemas the handlers run first.

The database is a `Store` of three finite maps from id to document. Each
handler is a pure function from a store and a request to a `Reply`: the
answer (`Ok` or a `Failure` naming the early exit) and the store left
behind. The store is the same one whenever the handler fails. The store
also holds an id counter shared by the three collections, standing for
ObjectId generation: a new document's id was never handed out before, and no
stored document holds it or refers to it, even by a dangling reference. An
unsorted `find()` is taken to return documents in ascending id order, which
is then creation order. Sorted queries are stable sorts over that order. JavaScript's `||` on strings is
`OrElse` (truthiness), `x !== undefined ? x : old` is a `Patch`, and
`Math.ceil`, `slice(0, n)` and `.skip().limit()` are written out with their
behaviour on zero and negative numbers.

Modules, in dependency order:

- `Outcomes`: `Option`, `Patch`, `Failure`, `Result`, the status a failure answers with.
- `Text`: `trim`, ASCII lower-casing, the hex-colour pattern, the binary string order.
- `Sorting`: sort keys and a stable insertion sort with its permutation, order and stability proofs.
- `Models`: the three document types, the schemas' defaults and save-time checks.
- `Store`: the collections, natural order, `find`, sorted `find`, `countDocuments`.
- `Folders`, `FolderTree`, `Tags`, `Assets`: the handlers.
- `Acyclic`: the folder update with a working cycle check (see Findings), and
  the proof that it keeps the folder tree complete.

Three behaviours of the code are worth stating up front, because the model
follows the code in each:

- The folder update carries a `// Prevent circular reference` comment and a
  "cannot be its own parent" message, but never refuses a parent: the check
  sits where it cannot fire, and no check walks the ancestors (see Findings).
- Neither asset handler checks that the folder and tags an asset names exist
  (`Assets.CreateIgnoresReferences`, `Assets.UpdateIgnoresReferences`).
- Popular tags with equal counts keep the store order of `Tag.find()`,
  because JavaScript's sort is stable (`Tags.PopularTiesInStoreOrder`).

## Model

| member | source | states |
|---|---|---|
| `Outcomes.OrElse` | src/controllers/folderController.js:182 | `given \|\| fallback` yields the given string exactly when it is present and non-empty, the fallback otherwise |
| `Outcomes.Status` | src/controllers/folderController.js:148-153 | a missing document answers 404; a save-time schema failure gets no status of its own but goes to the error handler; every other refusal answers 400 |
| `Models.FileTypeRoundTrip` | src/models/Asset.js:18-30 | a string is accepted as a file type exactly when it is the stored name of that type, so parsing and naming are inverse |
| `Models.NewFolder` | src/models/Folder.js:1-36 | a new folder's name is stored trimmed and its parent as given; a given description, colour or `isPublic` is stored as given, a missing description is empty, a missing colour is `#3B82F6`, a missing `isPublic` is true |
| `Models.NewTag` | src/models/Tag.js:5-15 | a new tag's name is stored trimmed and lower-cased (and is then a fixed point of the setters); a given colour is stored as given, a missing one is `#9CA3AF` |
| `Text.Trim` | src/models/Folder.js:5-9 | the trimmed string has no white space at either end and holds only characters of the original |
| `Text.TrimIsSlice` | src/models/Folder.js:5-9 | the trimmed string is the slice of the original between a run of leading and a run of trailing white space, so trimming removes white space at the ends and nothing else |
| `Text.TrimFixesTrimmed` | src/models/Folder.js:8 | trimming leaves exactly the already trimmed strings unchanged, so applying the setter twice is applying it once |
| `Text.Lower` | src/controllers/tagController.js:97 | lower-casing keeps the length and maps each character by itself |
| `Text.NormalizeIsNormalized` | src/models/Tag.js:5-11 | the name setters yield a trimmed lower-case name, and those are exactly the names the setters leave unchanged |
| `Text.LowerEqualMeansSameName` | src/controllers/tagController.js:134 | when the lower-cased new name equals the stored name, the setters store that same name again |
| `Text.PaddedName` | src/controllers/tagController.js:134-135 | a stored name with a leading space lower-cases to something else, yet the setters turn it back into the stored name |
| `Text.StrLeTotal` | src/controllers/folderController.js:21 | any two names are comparable in the order `sort({ name: 1 })` uses |
| `Text.StrLeTransitive` | src/controllers/folderController.js:21 | the name order is transitive |
| `Text.StrLeAntisymmetric` | src/controllers/folderController.js:21 | two names each no later than the other are equal |
| `Sorting.SortBy` | src/controllers/tagController.js:214-215 | sorting returns a permutation of its input, ordered by the key, ascending or descending |
| `Sorting.SortStable` | src/controllers/tagController.js:214-215 | for every key value, the elements with that value keep their input order: the sort is stable |
| `Sorting.WithKeyOfPrefix` | src/controllers/tagController.js:216 | a prefix keeps, for every key value, a prefix of the elements with that value |
| `Sorting.SortedPrefix` | src/controllers/tagController.js:216 | a prefix of a sorted list is sorted |
| `Store.Entries` | src/controllers/tagController.js:200 | an unsorted `find()` lists every document once, with its stored contents, in ascending id order |
| `Store.NewId` | src/controllers/folderController.js:118-125 | a created document gets an id never handed out before, that no stored document has or refers to, so it overwrites nothing and no dangling reference picks it up |
| `Store.Find` | src/controllers/folderController.js:18 | `find(filter)` returns exactly the stored documents the filter accepts, in natural order |
| `Store.FindSorted` | src/controllers/folderController.js:18-21 | a sorted `find` returns exactly the matching documents, each once, ordered by the key, as a permutation of the unsorted result |
| `Store.CountIsMatching` | src/controllers/folderController.js:26 | counting by scanning the collection counts exactly the documents that match the filter |
| `Store.FolderAssetCount` | src/controllers/folderController.js:26 | `countDocuments({ folder: id })` is the number of assets filed in the folder |
| `Store.TagAssetCount` | src/controllers/tagController.js:17 | `countDocuments({ tags: id })` is the number of assets carrying the tag, each asset once however often the id repeats in its list |
| `Folders.ListFolders` | src/controllers/folderController.js:8-42 | the listing holds every folder the parent query selects and nothing else, each once, by ascending name, each with its number of assets |
| `Folders.GetFolder` | src/controllers/folderController.js:47-82 | a missing folder answers 404; otherwise the folder, all and only its assets newest first, and all and only its direct subfolders by name |
| `Folders.SubfolderCount` | src/controllers/folderController.js:225-227 | the subfolder count is the number of folders naming the folder as parent |
| `Folders.CreateFolder` | src/controllers/folderController.js:87-139 | an invalid body is refused with 400 and a missing parent with 404, both storing nothing; otherwise the folder is stored under a fresh id with the given fields and the schema defaults, unless its trimmed name is empty |
| `Folders.UpdateFolder` | src/controllers/folderController.js:144-199 | a missing folder, or a missing new parent other than the folder itself, answers 404; the self-parent 400 never happens; on success a truthy name or colour and any given description, parent or visibility replace the stored value and nothing else changes |
| `Folders.DeleteFolder` | src/controllers/folderController.js:204-244 | deletion succeeds exactly for a stored folder with no assets and no subfolders, and removes only that folder; assets are reported before subfolders, with their counts |
| `Folders.CreateKeepsParents` | src/controllers/folderController.js:106-115 | creating a folder keeps every parent reference pointing at a stored folder |
| `Folders.UpdateKeepsParents` | src/controllers/folderController.js:157-166 | so does updating: a new parent is checked unless it is the folder itself |
| `Folders.DeleteKeepsParents` | src/controllers/folderController.js:224-233 | so does deleting, which is refused while any folder names the folder as parent |
| `Folders.CreateKeepsNames` | src/models/Folder.js:5-9 | created folders are stored with trimmed, non-empty names |
| `Folders.UpdateKeepsNames` | src/controllers/folderController.js:177 | updated folders keep trimmed, non-empty names |
| `Folders.DeleteKeepsNames` | src/controllers/folderController.js:235 | deleting keeps every remaining name as saved |
| `Folders.CreateThenDeleteFolder` | src/controllers/folderController.js:118-125 | on any store, deleting a folder just created succeeds and gives back the store as it was, apart from the id counter having moved on |
| `Folders.DeletedIdNotReused` | src/controllers/folderController.js:118-125 | a folder created after another was created and deleted never gets the deleted folder's id |
| `Folders.MoveSucceeds` | src/controllers/folderController.js:180-181 | moving a folder under any stored folder, or to the root, succeeds and changes nothing but that folder's parent |
| `Folders.SelfParentAccepted` | src/controllers/folderController.js:158-173 | as written, a folder can be made its own parent: the update succeeds and stores the self-reference |
| `Folders.CycleAccepted` | src/controllers/folderController.js:157-174 | as written, with `b` under `a`, moving `a` under `b` succeeds and leaves each the parent of the other |
| `FolderTree.GetFolderTree` | src/controllers/folderController.js:249-277 | every node of the tree is a stored folder with its stored contents, naming the node above (none at the top) as parent, and siblings are by ascending name at every level |
| `FolderTree.TreeCounts` | src/controllers/folderController.js:255-266 | a folder occurs in the tree once if walking up its parents reaches a top-level folder, and not at all otherwise |
| `FolderTree.DepthUnique` | src/controllers/folderController.js:258-260 | walking up from a folder reaches a top-level folder after at most one number of steps |
| `FolderTree.ExtendChain` | src/controllers/folderController.js:264 | a child built under a chain of ancestors is never already on the chain, so `buildTree` never revisits a folder and terminates |
| `FolderTree.TrappedNotRooted` | src/controllers/folderController.js:258-260 | folders on a cycle of parents never reach a top-level folder |
| `FolderTree.OrphanNotRooted` | src/controllers/folderController.js:258-260 | a folder naming a missing parent never reaches a top-level folder |
| `FolderTree.SelfParentLeavesTree` | src/controllers/folderController.js:158-181 | after the accepted self-parent update the folder is missing from the tree |
| `FolderTree.CycleLeavesTree` | src/controllers/folderController.js:157-181 | after the accepted two-folder cycle both folders are missing from the tree |
| `Tags.ListTags` | src/controllers/tagController.js:8-33 | every tag once and nothing else, by ascending name, each with the number of assets carrying it |
| `Tags.GetTag` | src/controllers/tagController.js:38-68 | a missing tag answers 404; otherwise the tag and all and only the assets carrying it, each once, newest first |
| `Tags.CreateTag` | src/controllers/tagController.js:73-115 | an invalid body is refused with 400; a name whose normalized form is in use is refused with 400; otherwise the tag is stored under a fresh id with its normalized name and colour |
| `Tags.UpdateTag` | src/controllers/tagController.js:120-163 | a missing tag answers 404; a truthy name whose lower-cased form differs from the stored one and whose normalized form is in use answers 400; a success stores the normalized new name (or the old name passed through the setters again) and a truthy colour, held by no other tag |
| `Tags.Pull` | src/controllers/tagController.js:180 | `$pull` removes every copy of the id and keeps exactly the other entries |
| `Tags.PullConcat` | src/controllers/tagController.js:180 | pulling distributes over concatenation, so it keeps the order of the remaining entries |
| `Tags.PullAbsent` | src/controllers/tagController.js:180 | pulling an id a list does not hold leaves the list unchanged |
| `Tags.DeleteTag` | src/controllers/tagController.js:168-191 | a missing tag answers 404; otherwise the tag is removed, no asset carries it any more, each asset keeps its other tags in order, and assets without the tag and all folders are unchanged |
| `Tags.DeleteTwice` | src/controllers/tagController.js:170-177 | deleting the same tag again finds nothing and changes nothing |
| `Tags.CreateThenDeleteTag` | src/controllers/tagController.js:96-100 | on any store, deleting a tag just created succeeds, pulls it from no asset, and gives back the store as it was, apart from the id counter having moved on |
| `Tags.CreateKeepsTagNames` | src/models/Tag.js:5-11 | creating keeps stored tag names normalized, non-empty and pairwise distinct |
| `Tags.UpdateKeepsTagNames` | src/controllers/tagController.js:145-148 | renaming keeps stored tag names normalized, non-empty and pairwise distinct |
| `Tags.DeleteKeepsTagNames` | src/controllers/tagController.js:182 | deleting keeps the remaining names normalized, non-empty and distinct |
| `Tags.CreateNeverCollides` | src/controllers/tagController.js:87-100 | with names as saved, the unique index never refuses a new tag that passed the handler's own checks |
| `Tags.UpdateNeverCollides` | src/controllers/tagController.js:134-148 | with names as saved, the unique index never refuses a rename that passed the handler's own checks |
| `Tags.RenameSameNameAccepted` | src/controllers/tagController.js:134 | renaming a tag to its own name in another case skips the lookup and succeeds, keeping the stored name |
| `Tags.RenameToTakenRefused` | src/controllers/tagController.js:134-141 | renaming a tag to a name another tag holds fails with 400 and changes nothing |
| `Tags.PaddedOwnNameRefused` | src/controllers/tagController.js:134-141 | renaming a tag to its own name with a leading space is refused: the untrimmed comparison differs, and the trimmed lookup finds the tag itself |
| `Tags.PopularLimit` | src/controllers/tagController.js:198 | a missing, unparsable or zero limit becomes 10; any other parsed limit is kept, negative ones included |
| `Tags.SliceEnd` | src/controllers/tagController.js:216 | `slice(0, end)` keeps `end` elements, all of them when there are fewer, and for a negative end all but the last `-end` |
| `Tags.TagCounts` | src/controllers/tagController.js:200-211 | every tag once in natural order, each with its true asset count |
| `Tags.PopularTags` | src/controllers/tagController.js:196-226 | the answer is the first `SliceEnd` entries of the count ranking |
| `Tags.PopularAreCounted` | src/controllers/tagController.js:203-211 | each returned tag is a stored tag with its true asset count |
| `Tags.PopularDistinct` | src/controllers/tagController.js:214-216 | no tag is returned twice |
| `Tags.PopularByCount` | src/controllers/tagController.js:215 | counts never increase down the answer |
| `Tags.PopularLength` | src/controllers/tagController.js:216 | a positive limit returns that many tags, or all of them when there are fewer |
| `Tags.PopularAreTop` | src/controllers/tagController.js:214-216 | no tag left out of the answer carries more assets than a tag in it |
| `Tags.PopularTiesInStoreOrder` | src/controllers/tagController.js:214-216 | for every count, the returned tags with that count are the first tags with that count in store order |
| `Assets.Listing` | src/controllers/assetController.js:21-44 | the listing holds every asset matching the folder, file-type and tag filters and nothing else, each once, sorted on the requested field (`_id` or any scalar field of the schema, unset values first), and its length is the number of matches |
| `Assets.MissingFieldKeepsOrder` | src/controllers/assetController.js:44 | sorting on a field the schema does not have leaves the matching assets in natural order |
| `Assets.Taken` | src/controllers/assetController.js:45-46 | `.skip(skip).limit(limit)` keeps what remains after `skip`, capped by the limit's magnitude, with a zero limit meaning no cap |
| `Assets.Window` | src/controllers/assetController.js:45-46 | the kept results are the contiguous run of the listing starting at `skip` |
| `Assets.CeilDiv` | src/controllers/assetController.js:54 | `Math.ceil(n / d)` is the least multiple count covering `n` for positive `d`, and the analogous bound for negative `d` |
| `Assets.TotalPages` | src/controllers/assetController.js:54 | `totalPages` is `Math.ceil(total / limit)`, and is not a finite number when the limit is zero |
| `Assets.GetAssets` | src/controllers/assetController.js:7-61 | a negative skip fails; otherwise the items are the listing window starting at `(page - 1) * limit`, the total is the number of matches and the page count covers it |
| `Assets.EveryAssetOnItsPage` | src/controllers/assetController.js:44-54 | with a positive limit, the asset at position `k` is item `k % limit` of page `k / limit + 1`, and that page is within `totalPages` |
| `Assets.OnlyOnItsPage` | src/controllers/assetController.js:45-46 | an asset shown as item `i` of a page sits at position `(page - 1) * limit + i` of the listing, so it shows on no other page or item |
| `Assets.GetAsset` | src/controllers/assetController.js:66-87 | a stored asset is returned as stored; a missing one answers 404 |
| `Assets.CreateAsset` | src/controllers/assetController.js:92-133 | an invalid body answers 400; a body failing the schema's required fields is rejected at save; otherwise the asset is stored under a fresh id with the given fields, zero counters and the schema defaults |
| `Assets.CreateIgnoresReferences` | src/controllers/assetController.js:105-118 | a folder and tags that do not exist are stored as given |
| `Assets.UpdateAsset` | src/controllers/assetController.js:138-173 | a missing asset answers 404; otherwise a truthy name and any given description, folder, tags or visibility replace the stored values and every other field is kept |
| `Assets.UpdateIgnoresReferences` | src/controllers/assetController.js:152-158 | an update to a folder and tags that do not exist is stored as given |
| `Assets.DeleteAsset` | src/controllers/assetController.js:178-198 | a missing asset answers 404; otherwise exactly that asset is removed and folders and tags are untouched |
| `Assets.CreateThenDeleteAsset` | src/controllers/assetController.js:189 | deleting an asset just created succeeds and gives back the store as it was, apart from the id counter having moved on |
| `Assets.Increment` | src/controllers/assetController.js:203-252 | a missing asset answers 404; otherwise the chosen counter goes up by one, the answer is its new value, and nothing else in the store changes |
| `Assets.CountersCommute` | src/controllers/assetController.js:214-242 | on saved assets the counters never fail, and raising downloads then views gives the same store as views then downloads |
| `Assets.CreateKeepsSaved` | src/models/Asset.js:5-38 | created assets pass the schema's required-field checks |
| `Assets.UpdateKeepsSaved` | src/controllers/assetController.js:152-158 | updated assets still pass the schema's required-field checks |
| `Assets.IncrementKeepsSaved` | src/controllers/assetController.js:214-215 | raising a counter keeps every asset passing the required-field checks |
| `Acyclic.ReachesExactly` | src/controllers/folderController.js:167-173 | the cycle check's bounded walk meets the folder exactly when some walk of at most that many steps up the parents does |
| `Acyclic.ReachesIsBelow` | src/controllers/folderController.js:167-173 | from a parent that reaches a top-level folder, walking as many steps as there are folders meets the folder exactly when it is the parent or an ancestor of it |
| `Acyclic.UpdateFolderAcyclic` | src/controllers/folderController.js:157-185 | the corrected update refuses with 400, storing nothing, exactly when the new parent is the folder or lies below it, and otherwise behaves as written |
| `Acyclic.RefusedExactlyOnCycle` | src/controllers/folderController.js:167-173 | moving a folder under a stored folder is refused exactly when that folder is the folder itself or one of its descendants |
| `Acyclic.SelfParentRefused` | src/controllers/folderController.js:167-173 | the corrected update refuses a folder as its own parent and changes nothing |
| `Acyclic.CycleRefused` | src/controllers/folderController.js:167-173 | the corrected update refuses moving a folder under its own subfolder and changes nothing |
| `Acyclic.UpdateKeepsRooted` | src/controllers/folderController.js:157-185 | the corrected update keeps every folder's chain of parents ending at a top-level folder |
| `Acyclic.CreateKeepsRooted` | src/controllers/folderController.js:106-125 | creating a folder, under a checked parent, keeps every chain of parents ending at a top-level folder |
| `Acyclic.DeleteKeepsRooted` | src/controllers/folderController.js:224-235 | deleting a folder, which has no subfolders, keeps every remaining chain ending at a top-level folder |
| `Acyclic.TreeComplete` | src/controllers/folderController.js:249-277 | while every chain of parents ends at a top-level folder, the tree lists each stored folder exactly once and nothing else |

## Left out

- Text search: `searchAssets` and the `search` parameter of the listing rely on the database's text index and its relevance ranking, which have no counterpart here.
- `populate`: the handlers replace references with the referenced documents only in the answer; the model returns the stored ids.
- Authentication, the user model, upload handling, routes, middleware and the server set-up are outside the three controllers.
- Malformed ids: an id that is not a valid ObjectId makes the database throw a cast error, which goes to the error handler. Ids here are natural numbers, so that path does not arise.
- Query-string parsing: `page` and `limit` arrive as strings with defaults 1, 20, `createdAt` and `desc`. The model takes them already parsed, as integers, a `SortField` and a direction. `parseInt(page)` in the answer is the given page.
- `Assets.CreateAsset`: the schema takes any JavaScript number as `fileSize`, and nothing validates it. The model admits every integer, negative ones included, but not fractions or the non-finite numbers.
- `Assets.Taken`: the database takes a negative limit as its magnitude and also closes the cursor after one batch. Only the magnitude is modelled.
- `Assets.Listing`: sorting on `tags` (an array, which the database compares by its least element ascending and its greatest descending), on `updatedAt` (not kept, see Timestamps) or on the version key `__v` is not modelled.
- Natural order: the database promises no order for an unsorted `find()`, nor among documents with equal sort keys. The model takes natural order to be ascending id order, which is creation order, and sorts stably over it; the order of ties, and of tags in the popular ranking, rests on that choice.
- Empty references: on create, validation takes a folder's `parentFolder` and an asset's `folder` as a string or `null`, so an empty string is refused with 400 before anything is stored. The update handlers run no validation: an empty `parentFolder` is falsy, skips the parent lookup and is assigned, and an empty asset `folder` is assigned likewise; either then meets the ObjectId cast at save, which goes to the error handler. Ids are numbers here, so neither request can be expressed.
- `Text.Lower`: only the ASCII letters are lower-cased; JavaScript's full Unicode case mapping is not modelled. Lengths are counted in characters, not UTF-16 units.
- Timestamps: only an asset's creation time is kept, passed in as `now`; `updatedAt` and folder and tag timestamps are not modelled.
- Concurrency: the handlers' `await` points could interleave with other requests. Each handler here runs atomically, so a race between the tag-name lookup and the save does not arise.
- Null values: a body field sent as `null` cannot be expressed, except an asset's or folder's parent reference, where `null` is the absent reference. Fields are either absent or hold a value of their type.
- `Folders.ListFolders`, `Tags.ListTags`: the answer's `count` and `success` fields are its length and a constant and are not modelled.

## Findings

| source | as written | input that shows it | evidently intended | confidence | as-written member | corrected member |
|---|---|---|---|---|---|---|
| src/controllers/folderController.js:158-173 | the "cannot be its own parent" refusal sits inside a branch entered only when the new parent differs from the folder, so it never fires; the update stores the folder as its own parent | PUT /api/folders/:id with `parentFolder` equal to `:id` | refuse with 400 and change nothing | high, not executed | `Folders.SelfParentAccepted` | `Acyclic.SelfParentRefused` |
| src/controllers/folderController.js:157-181 | no check walks up the ancestors of the new parent, so a folder can be moved under its own subfolder; both then drop out of the folder tree | folder B whose parent is A; PUT /api/folders/A with `parentFolder` B | refuse a new parent that is the folder or one of its descendants, keeping every folder in the tree | medium, not executed | `FolderTree.CycleLeavesTree` | `Acyclic.RefusedExactlyOnCycle` |

The corrected update is `Acyclic.UpdateFolderAcyclic`. Together with folder
creation and deletion as written, it keeps every chain of parents ending at
a top-level folder (`Acyclic.UpdateKeepsRooted`, `Acyclic.CreateKeepsRooted`,
`Acyclic.DeleteKeepsRooted`). Under that invariant the tree lists every
folder exactly once (`Acyclic.TreeComplete`).
