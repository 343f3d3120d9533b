/** The folder handlers: listing, reading one folder with its contents,
    creating, updating and deleting folders.

    Each handler is a pure function of the store; the writing ones return the
    store they leave behind, which is the unchanged store whenever they fail.
 */
module Folders {
  import opened Outcomes
  import opened Text
  import opened Sorting
  import opened Models
  import opened Store

  /** The `parentFolder` query parameter of the listing: absent, the literal
      string 'null' (folders at the root), or a folder id. */
  datatype ParentQuery = AnyParent | NullParent | ParentId(id: FolderId)

  predicate Selects(q: ParentQuery, f: Folder) {
    match q
    case AnyParent => true
    case NullParent => f.parentFolder.None?
    case ParentId(p) => f.parentFolder == Some(p)
  }

  function ParentFilter(q: ParentQuery): Folder -> bool {
    (f: Folder) => Selects(q, f)
  }

  /** `Folder.find(filter).sort({ name: 1 })`: the folders the query
      selects, by ascending name. */
  function FoldersByName(s: Store, q: ParentQuery): (r: seq<Entry<Folder>>)
    ensures forall i :: 0 <= i < |r| ==>
              r[i].id in s.folders && r[i].doc == s.folders[r[i].id] && Selects(q, r[i].doc)
    ensures forall f :: f in s.folders && Selects(q, s.folders[f]) ==> Entry(f, s.folders[f]) in r
    ensures DistinctIds(r)
    ensures forall i, j :: 0 <= i < j < |r| ==> StrLe(r[i].doc.name, r[j].doc.name)
  {
    var r := FindSorted(s.folders, ParentFilter(q), FolderName, false);
    ByName(r);
    forall i | 0 <= i < |r| ensures Selects(q, r[i].doc) {
      assert ParentFilter(q)(r[i].doc);
    }
    forall f | f in s.folders && Selects(q, s.folders[f]) ensures Entry(f, s.folders[f]) in r {
      assert ParentFilter(q)(s.folders[f]);
    }
    r
  }

  /** `Asset.find({ folder: id }).sort({ createdAt: -1 })`: the assets filed
      in the folder, newest first. */
  function AssetsNewestFirst(s: Store, id: FolderId): (r: seq<Entry<Asset>>)
    ensures forall i :: 0 <= i < |r| ==>
              r[i].id in s.assets && r[i].doc == s.assets[r[i].id] && r[i].doc.folder == Some(id)
    ensures forall a :: a in s.assets && s.assets[a].folder == Some(id) ==> Entry(a, s.assets[a]) in r
    ensures DistinctIds(r)
    ensures forall i, j :: 0 <= i < j < |r| ==> r[i].doc.createdAt >= r[j].doc.createdAt
  {
    var r := FindSorted(s.assets, InFolder(id), CreatedAt, true);
    NewestFirst(r);
    r
  }

  /** The folders whose parent is `id`. */
  ghost function Subfolders(s: Store, id: FolderId): set<FolderId> {
    set f | f in s.folders && s.folders[f].parentFolder == Some(id)
  }

  /** `Folder.countDocuments({ parentFolder: id })`. */
  function SubfolderCount(s: Store, id: FolderId): (n: nat)
    ensures n == |Subfolders(s, id)|
  {
    CountIsMatching(s.folders, ParentFilter(ParentId(id)));
    assert Matching(s.folders, ParentFilter(ParentId(id))) == Subfolders(s, id);
    CountWhere(Entries(s.folders), ParentFilter(ParentId(id)))
  }

  /** Each folder of `es` with its asset count attached. */
  function WithAssetCounts(s: Store, es: seq<Entry<Folder>>): (r: seq<Counted<Folder>>)
    ensures |r| == |es|
    ensures forall i :: 0 <= i < |r| ==>
              r[i].id == es[i].id && r[i].doc == es[i].doc && r[i].assetCount == |AssetsIn(s, es[i].id)|
    ensures forall e :: e in es ==> Counted(e.id, e.doc, |AssetsIn(s, e.id)|) in r
  {
    var r := seq(|es|, i requires 0 <= i < |es| => Counted(es[i].id, es[i].doc, FolderAssetCount(s, es[i].id)));
    forall e | e in es ensures Counted(e.id, e.doc, |AssetsIn(s, e.id)|) in r {
      var i :| 0 <= i < |es| && es[i] == e;
      assert r[i] == Counted(e.id, e.doc, |AssetsIn(s, e.id)|);
    }
    r
  }

  /** GET /api/folders: the folders the query selects, by ascending name,
      each with the number of assets filed in it. */
  function ListFolders(s: Store, q: ParentQuery): (r: seq<Counted<Folder>>)
    ensures forall i :: 0 <= i < |r| ==>
              && r[i].id in s.folders
              && r[i].doc == s.folders[r[i].id]
              && Selects(q, r[i].doc)
              && r[i].assetCount == |AssetsIn(s, r[i].id)|
    ensures forall id :: id in s.folders && Selects(q, s.folders[id]) ==>
              Counted(id, s.folders[id], |AssetsIn(s, id)|) in r
    ensures forall i, j :: 0 <= i < j < |r| ==> r[i].id != r[j].id
    ensures forall i, j :: 0 <= i < j < |r| ==> StrLe(r[i].doc.name, r[j].doc.name)
  {
    WithAssetCounts(s, FoldersByName(s, q))
  }

  /** What GET /api/folders/:id answers with. */
  datatype FolderContents = FolderContents(
    folder: Folder,
    assets: seq<Entry<Asset>>,
    subfolders: seq<Entry<Folder>>)

  /** GET /api/folders/:id: the folder, the assets filed in it (newest
      first) and its direct subfolders (by ascending name). */
  function GetFolder(s: Store, id: FolderId): (r: Result<FolderContents>)
    ensures r.Err? <==> id !in s.folders
    ensures r.Err? ==> r.failure == NotFound
    ensures r.Ok? ==> r.value.folder == s.folders[id]
    ensures r.Ok? ==>
              var assets := r.value.assets;
              && (forall i :: 0 <= i < |assets| ==>
                    assets[i].id in s.assets && assets[i].doc == s.assets[assets[i].id]
                    && assets[i].doc.folder == Some(id))
              && (forall a :: a in s.assets && s.assets[a].folder == Some(id) ==> Entry(a, s.assets[a]) in assets)
              && DistinctIds(assets)
              && (forall i, j :: 0 <= i < j < |assets| ==> assets[i].doc.createdAt >= assets[j].doc.createdAt)
    ensures r.Ok? ==>
              var subs := r.value.subfolders;
              && (forall i :: 0 <= i < |subs| ==>
                    subs[i].id in s.folders && subs[i].doc == s.folders[subs[i].id]
                    && subs[i].doc.parentFolder == Some(id))
              && (forall f :: f in s.folders && s.folders[f].parentFolder == Some(id) ==> Entry(f, s.folders[f]) in subs)
              && DistinctIds(subs)
              && (forall i, j :: 0 <= i < j < |subs| ==> StrLe(subs[i].doc.name, subs[j].doc.name))
  {
    if id !in s.folders then Err(NotFound)
    else Ok(FolderContents(s.folders[id], AssetsNewestFirst(s, id), FoldersByName(s, ParentId(id))))
  }

  /** The body of POST /api/folders; absent fields are `None`. */
  datatype FolderRequest = FolderRequest(
    name: Option<string>,
    description: Option<string>,
    parentFolder: Option<FolderId>,
    color: Option<string>,
    isPublic: Option<bool>)

  /** The folder validation schema: a name of 1 to 100 characters, a
      description of at most 500, a colour matching the hex pattern. */
  predicate FolderRequestValid(req: FolderRequest) {
    && req.name.Some? && 1 <= |req.name.value| <= 100
    && (req.description.Some? ==> |req.description.value| <= 500)
    && (req.color.Some? ==> IsHexColor(req.color.value))
  }

  /** POST /api/folders: validate, check that the parent folder exists when
      one is given, then store the new folder with its defaults. */
  function CreateFolder(s: Store, req: FolderRequest, user: UserId): (r: Reply<Entry<Folder>>)
    ensures !FolderRequestValid(req) ==> r == Reply(Err(Invalid), s)
    ensures r.result.Err? ==> r.store == s
    ensures r.result == Err(NotFound) <==>
              FolderRequestValid(req) && req.parentFolder.Some? && req.parentFolder.value !in s.folders
    ensures r.result.Ok? <==>
              FolderRequestValid(req)
              && (req.parentFolder.Some? ==> req.parentFolder.value in s.folders)
              && Trim(req.name.value) != ""
    ensures r.result.Ok? ==>
              var e := r.result.value;
              && s.issued <= e.id && Unmentioned(s, e.id)
              && r.store == s.(folders := s.folders[e.id := e.doc], issued := e.id + 1)
              && e.doc.name == Trim(req.name.value)
              && e.doc.parentFolder == req.parentFolder
              && (req.description.Some? ==> e.doc.description == req.description.value)
              && (req.description.None? ==> e.doc.description == "")
              && (req.color.Some? ==> e.doc.color == req.color.value)
              && (req.color.None? ==> e.doc.color == DefaultFolderColor)
              && (req.isPublic.Some? ==> e.doc.isPublic == req.isPublic.value)
              && (req.isPublic.None? ==> e.doc.isPublic)
              && e.doc.createdBy == user
  {
    if !FolderRequestValid(req) then Reply(Err(Invalid), s)
    else if req.parentFolder.Some? && req.parentFolder.value !in s.folders then Reply(Err(NotFound), s)
    else
      var f := NewFolder(req.name.value, req.description, req.parentFolder,
                         Some(OrElse(req.color, DefaultFolderColor)), user, req.isPublic);
      if !FolderSaves(f) then Reply(Err(Rejected), s)
      else
        var id := NewId(s);
        Reply(Ok(Entry(id, f)), s.(folders := s.folders[id := f], issued := id + 1))
  }

  /** The body of PUT /api/folders/:id. `name` and `color` replace the
      stored value only when truthy; the other fields whenever present. */
  datatype FolderPatch = FolderPatch(
    name: Option<string>,
    description: Patch<string>,
    parentFolder: Patch<Option<FolderId>>,
    color: Option<string>,
    isPublic: Patch<bool>)

  /** The guard of the parent check: a parent id is given and it differs
      from the folder's own id. */
  predicate ChecksParent(id: FolderId, patch: FolderPatch) {
    patch.parentFolder.Set? && patch.parentFolder.value.Some? && patch.parentFolder.value.value != id
  }

  /** A folder update moving the folder under `parent`, changing nothing else. */
  function MoveTo(parent: Option<FolderId>): FolderPatch {
    FolderPatch(None, Keep, Set(parent), None, Keep)
  }

  /** PUT /api/folders/:id. The parent check runs only for a parent id that
      differs from the folder's own id, so the self-parent rejection inside
      it can never fire, and no check walks the ancestor chain. */
  function UpdateFolder(s: Store, id: FolderId, patch: FolderPatch): (r: Reply<Entry<Folder>>)
    ensures r.result.Err? ==> r.store == s
    ensures r.result != Err(Invalid)
    ensures r.result == Err(NotFound) <==>
              || id !in s.folders
              || (ChecksParent(id, patch) && patch.parentFolder.value.value !in s.folders)
    ensures r.result.Ok? <==>
              && id in s.folders
              && !(ChecksParent(id, patch) && patch.parentFolder.value.value !in s.folders)
              && Trim(OrElse(patch.name, s.folders[id].name)) != ""
    ensures r.result.Ok? ==>
              var e := r.result.value;
              var prev := s.folders[id];
              && e.id == id
              && r.store == s.(folders := s.folders[id := e.doc])
              && (Truthy(patch.name) ==> e.doc.name == Trim(patch.name.value))
              && (!Truthy(patch.name) ==> e.doc.name == Trim(prev.name))
              && (patch.description.Set? ==> e.doc.description == patch.description.value)
              && (patch.description.Keep? ==> e.doc.description == prev.description)
              && (patch.parentFolder.Set? ==> e.doc.parentFolder == patch.parentFolder.value)
              && (patch.parentFolder.Keep? ==> e.doc.parentFolder == prev.parentFolder)
              && (Truthy(patch.color) ==> e.doc.color == patch.color.value)
              && (!Truthy(patch.color) ==> e.doc.color == prev.color)
              && (patch.isPublic.Set? ==> e.doc.isPublic == patch.isPublic.value)
              && (patch.isPublic.Keep? ==> e.doc.isPublic == prev.isPublic)
              && e.doc.createdBy == prev.createdBy
  {
    if id !in s.folders then Reply(Err(NotFound), s)
    else if ChecksParent(id, patch) && patch.parentFolder.value.value !in s.folders then
      Reply(Err(NotFound), s)
    else if ChecksParent(id, patch) && patch.parentFolder.value.value == id then
      Reply(Err(Invalid), s)
    else
      var prev := s.folders[id];
      var f := Folder(
        Trim(OrElse(patch.name, prev.name)),
        patch.description.Apply(prev.description),
        patch.parentFolder.Apply(prev.parentFolder),
        prev.createdBy,
        OrElse(patch.color, prev.color),
        patch.isPublic.Apply(prev.isPublic));
      if !FolderSaves(f) then Reply(Err(Rejected), s)
      else Reply(Ok(Entry(id, f)), s.(folders := s.folders[id := f]))
  }

  /** DELETE /api/folders/:id: refused while any asset is filed in the
      folder (checked first) or any folder has it as parent. */
  function DeleteFolder(s: Store, id: FolderId): (r: Reply<()>)
    ensures r.result.Err? ==> r.store == s
    ensures r.result.Ok? <==>
              && id in s.folders
              && (forall a :: a in s.assets ==> s.assets[a].folder != Some(id))
              && (forall f :: f in s.folders ==> s.folders[f].parentFolder != Some(id))
    ensures r.result.Ok? ==> r.store == s.(folders := s.folders - {id})
    ensures id !in s.folders ==> r.result == Err(NotFound)
    ensures id in s.folders && AssetsIn(s, id) != {} ==>
              r.result == Err(HasAssets(|AssetsIn(s, id)|))
    ensures id in s.folders && AssetsIn(s, id) == {} && Subfolders(s, id) != {} ==>
              r.result == Err(HasSubfolders(|Subfolders(s, id)|))
  {
    if id !in s.folders then Reply(Err(NotFound), s)
    else
      var assets := FolderAssetCount(s, id);
      if assets > 0 then Reply(Err(HasAssets(assets)), s)
      else
        var subfolders := SubfolderCount(s, id);
        if subfolders > 0 then Reply(Err(HasSubfolders(subfolders)), s)
        else
          assert forall a :: a in s.assets ==> a !in AssetsIn(s, id);
          assert forall f :: f in s.folders ==> f !in Subfolders(s, id);
          Reply(Ok(()), s.(folders := s.folders - {id}))
  }

  /** Every parent a folder names is a stored folder. */
  ghost predicate ParentsExist(s: Store) {
    forall f :: f in s.folders && s.folders[f].parentFolder.Some? ==>
      s.folders[f].parentFolder.value in s.folders
  }

  /** Every stored folder name is as the schema saves it: trimmed and not empty. */
  ghost predicate NamesSaved(s: Store) {
    forall f :: f in s.folders ==> IsTrimmed(s.folders[f].name) && s.folders[f].name != ""
  }

  /** Creating a folder keeps every parent reference pointing at a stored folder. */
  lemma CreateKeepsParents(s: Store, req: FolderRequest, user: UserId)
    requires ParentsExist(s)
    ensures ParentsExist(CreateFolder(s, req, user).store)
  {
  }

  /** So does updating one: a new parent is either checked or the folder itself. */
  lemma UpdateKeepsParents(s: Store, id: FolderId, patch: FolderPatch)
    requires ParentsExist(s)
    ensures ParentsExist(UpdateFolder(s, id, patch).store)
  {
  }

  /** And deleting one, which is refused while any folder names it as parent. */
  lemma DeleteKeepsParents(s: Store, id: FolderId)
    requires ParentsExist(s)
    ensures ParentsExist(DeleteFolder(s, id).store)
  {
    var r := DeleteFolder(s, id);
    if r.result.Ok? {
      RemoveUnreferenced(s.folders, id);
    }
  }

  /** Removing a folder no folder names as parent leaves no parent missing. */
  lemma RemoveUnreferenced(fs: map<FolderId, Folder>, id: FolderId)
    requires forall f :: f in fs && fs[f].parentFolder.Some? ==> fs[f].parentFolder.value in fs
    requires forall f :: f in fs ==> fs[f].parentFolder != Some(id)
    ensures var rest := fs - {id};
            forall f :: f in rest && rest[f].parentFolder.Some? ==> rest[f].parentFolder.value in rest
  {
  }

  /** Storing under `id` a folder whose name is trimmed and not empty keeps
      every name as saved. */
  lemma PutKeepsNames(s: Store, id: FolderId, f: Folder)
    requires NamesSaved(s)
    requires IsTrimmed(f.name) && f.name != ""
    ensures NamesSaved(s.(folders := s.folders[id := f]))
  {
  }

  /** The folder handlers store only names the schema accepts. */
  lemma CreateKeepsNames(s: Store, req: FolderRequest, user: UserId)
    requires NamesSaved(s)
    ensures NamesSaved(CreateFolder(s, req, user).store)
  {
    var r := CreateFolder(s, req, user);
    if r.result.Ok? {
      var e := r.result.value;
      assert e.doc.name == Trim(req.name.value);
      PutKeepsNames(s, e.id, e.doc);
    }
  }

  lemma UpdateKeepsNames(s: Store, id: FolderId, patch: FolderPatch)
    requires NamesSaved(s)
    ensures NamesSaved(UpdateFolder(s, id, patch).store)
  {
    var r := UpdateFolder(s, id, patch);
    if r.result.Ok? {
      var e := r.result.value;
      assert e.doc.name == Trim(OrElse(patch.name, s.folders[id].name));
      PutKeepsNames(s, id, e.doc);
    }
  }

  lemma DeleteKeepsNames(s: Store, id: FolderId)
    requires NamesSaved(s)
    ensures NamesSaved(DeleteFolder(s, id).store)
  {
  }

  /** Deleting a folder just created succeeds and gives back the store as
      it was, but for the id counter: nothing can refer to a new id. */
  lemma CreateThenDeleteFolder(s: Store, req: FolderRequest, user: UserId)
    ensures var r := CreateFolder(s, req, user);
            r.result.Ok? ==>
              DeleteFolder(r.store, r.result.value.id) == Reply(Ok(()), s.(issued := r.store.issued))
  {
    var r := CreateFolder(s, req, user);
    if r.result.Ok? {
      var e := r.result.value;
      assert e.doc.parentFolder.Some? ==> e.doc.parentFolder.value in s.folders;
      DeleteFresh(s.(issued := r.store.issued), e.id, e.doc);
    }
  }

  /** An id is never handed out twice: a folder created after another one
      was created and deleted gets a different id. */
  lemma DeletedIdNotReused(s: Store, req: FolderRequest, later: FolderRequest, user: UserId)
    ensures var r := CreateFolder(s, req, user);
            r.result.Ok? ==>
              var r2 := CreateFolder(DeleteFolder(r.store, r.result.value.id).store, later, user);
              r2.result.Ok? ==> r2.result.value.id != r.result.value.id
  {
  }

  /** Deleting a folder stored under an id that nothing else holds or
      refers to, and that is not its own parent. */
  lemma DeleteFresh(s: Store, id: FolderId, f: Folder)
    requires Unmentioned(s, id)
    requires f.parentFolder != Some(id)
    ensures DeleteFolder(s.(folders := s.folders[id := f]), id) == Reply(Ok(()), s)
  {
    var t := s.(folders := s.folders[id := f]);
    forall a | a in t.assets ensures t.assets[a].folder != Some(id) {
      assert t.assets[a] == s.assets[a];
    }
    forall g | g in t.folders ensures t.folders[g].parentFolder != Some(id) {
      if g != id {
        assert t.folders[g] == s.folders[g];
      }
    }
    assert t.folders - {id} == s.folders;
  }

  lemma MoveAccepted(s: Store, id: FolderId, parent: Option<FolderId>)
    requires id in s.folders
    requires IsTrimmed(s.folders[id].name) && s.folders[id].name != ""
    requires parent.Some? ==> parent.value in s.folders
    ensures UpdateFolder(s, id, MoveTo(parent)).result.Ok?
  {
    var name := s.folders[id].name;
    TrimFixesTrimmed(name);
    assert Trim(OrElse(None, name)) == name;
  }

  lemma MoveChangesParent(s: Store, id: FolderId, parent: Option<FolderId>)
    requires id in s.folders && IsTrimmed(s.folders[id].name)
    requires UpdateFolder(s, id, MoveTo(parent)).result.Ok?
    ensures UpdateFolder(s, id, MoveTo(parent)).result.value.doc == s.folders[id].(parentFolder := parent)
  {
    TrimFixesTrimmed(s.folders[id].name);
  }

  /** Moving a folder under any stored folder, or to the root, succeeds and
      changes nothing but that folder's parent. */
  lemma MoveSucceeds(s: Store, id: FolderId, parent: Option<FolderId>)
    requires id in s.folders
    requires IsTrimmed(s.folders[id].name) && s.folders[id].name != ""
    requires parent.Some? ==> parent.value in s.folders
    ensures var r := UpdateFolder(s, id, MoveTo(parent));
            && r.result.Ok?
            && r.store == s.(folders := s.folders[id := s.folders[id].(parentFolder := parent)])
  {
    MoveAccepted(s, id, parent);
    MoveChangesParent(s, id, parent);
  }

  /** A folder can be made its own parent: the self-check sits behind a guard
      that excludes exactly that case, and the update succeeds. */
  lemma SelfParentAccepted(s: Store, id: FolderId)
    requires id in s.folders && NamesSaved(s)
    ensures var r := UpdateFolder(s, id, MoveTo(Some(id)));
            && r.result.Ok?
            && r.store.folders[id].parentFolder == Some(id)
  {
    MoveSucceeds(s, id, Some(id));
  }

  /** Nor is a longer cycle refused: with `b` under `a`, moving `a` under `b`
      succeeds and leaves each the parent of the other. */
  lemma CycleAccepted(s: Store, a: FolderId, b: FolderId)
    requires a in s.folders && b in s.folders && a != b
    requires s.folders[b].parentFolder == Some(a)
    requires NamesSaved(s)
    ensures var r := UpdateFolder(s, a, MoveTo(Some(b)));
            && r.result.Ok?
            && r.store.folders[a].parentFolder == Some(b)
            && r.store.folders[b].parentFolder == Some(a)
  {
    MoveSucceeds(s, a, Some(b));
  }
}
