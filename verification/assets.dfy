/** The asset handlers: the filtered, sorted and paginated listing, reading
    one asset, creating, updating and deleting, and the download and view
    counters.

    Neither creating nor updating an asset checks that the folder or the
    tags it names exist; the model keeps that, and lemmas below state it.
 */
module Assets {
  import opened Outcomes
  import opened Text
  import opened Sorting
  import opened Models
  import opened Store

  /** The `folder` query parameter: absent, the string `'null'` (assets in
      no folder), or a folder id. */
  datatype FolderFilter = AnyFolder | NoFolder | FolderIs(id: FolderId)

  /** The filter part of GET /api/assets. `fileType` is compared as given,
      so a name outside the enumeration matches nothing; `tags` is the
      comma-split list of ids. */
  datatype AssetFilter = AssetFilter(
    folder: FolderFilter,
    fileType: Option<string>,
    tags: Option<seq<TagId>>)

  /** Some id occurs in both lists: the `$in` operator on an array field. */
  predicate SharesTag(wanted: seq<TagId>, tags: seq<TagId>) {
    exists t :: t in wanted && t in tags
  }

  /** The database query `handleGetAssets` builds, applied to one asset. */
  predicate Matches(q: AssetFilter, a: Asset) {
    && (match q.folder
        case AnyFolder => true
        case NoFolder => a.folder.None?
        case FolderIs(id) => a.folder == Some(id))
    && (Truthy(q.fileType) ==> FileTypeName(a.fileType) == q.fileType.value)
    && (q.tags.Some? ==> SharesTag(q.tags.value, a.tags))
  }

  function Filter(q: AssetFilter): Asset -> bool {
    (a: Asset) => Matches(q, a)
  }

  /** The field named by `sortBy`: `_id` or one of the schema's scalar
      fields. `ByMissingField` is a name the schema does not have, so every
      asset sorts equal and natural order remains. */
  datatype SortField =
    | ById | ByCreatedAt | ByName | ByDescription | ByFileUrl | ByFileType | ByFileSize
    | ByMimeType | ByFolder | ByUploadedBy | ByThumbnail | ByDownloads | ByViews | ByIsPublic
    | ByMissingField

  /** The value an asset sorts by. An unset folder or thumbnail is null;
      `false` sorts before `true`. */
  function SortKey(f: SortField): Entry<Asset> -> Key {
    (e: Entry<Asset>) =>
      match f
      case ById => Num(e.id)
      case ByCreatedAt => Num(e.doc.createdAt)
      case ByName => Str(e.doc.name)
      case ByDescription => Str(e.doc.description)
      case ByFileUrl => Str(e.doc.fileUrl)
      case ByFileType => Str(FileTypeName(e.doc.fileType))
      case ByFileSize => Num(e.doc.fileSize)
      case ByMimeType => Str(e.doc.mimeType)
      case ByFolder => if e.doc.folder.Some? then Num(e.doc.folder.value) else Null
      case ByUploadedBy => Num(e.doc.uploadedBy)
      case ByThumbnail => if e.doc.thumbnail.Some? then Str(e.doc.thumbnail.value) else Null
      case ByDownloads => Num(e.doc.downloads)
      case ByViews => Num(e.doc.views)
      case ByIsPublic => Num(if e.doc.isPublic then 1 else 0)
      case ByMissingField => Null
  }

  /** Every matching asset, sorted: the query before `skip` and `limit`. */
  function Listing(s: Store, q: AssetFilter, field: SortField, desc: bool): (r: seq<Entry<Asset>>)
    ensures forall i :: 0 <= i < |r| ==>
              r[i].id in s.assets && r[i].doc == s.assets[r[i].id] && Matches(q, r[i].doc)
    ensures forall a :: a in s.assets && Matches(q, s.assets[a]) ==> Entry(a, s.assets[a]) in r
    ensures DistinctIds(r)
    ensures SortedBy(r, SortKey(field), desc)
    ensures |r| == |Matching(s.assets, Filter(q))|
  {
    var r := FindSorted(s.assets, Filter(q), SortKey(field), desc);
    CountIsMatching(s.assets, Filter(q));
    assert |r| == |Find(s.assets, Filter(q))| by {
      assert |multiset(r)| == |multiset(Find(s.assets, Filter(q)))|;
    }
    forall a | a in s.assets && Matches(q, s.assets[a]) ensures Entry(a, s.assets[a]) in r {
      assert Filter(q)(s.assets[a]);
    }
    forall i | 0 <= i < |r| ensures Matches(q, r[i].doc) {
      assert Filter(q)(r[i].doc);
    }
    r
  }

  /** Sorting on a field the schema does not have leaves the matching
      assets in natural order. */
  lemma MissingFieldKeepsOrder(s: Store, q: AssetFilter, desc: bool)
    ensures Listing(s, q, ByMissingField, desc) == Find(s.assets, Filter(q))
  {
    var found := Find(s.assets, Filter(q));
    var key := SortKey(ByMissingField);
    var r := SortBy(found, key, desc);
    assert Listing(s, q, ByMissingField, desc) == r;
    SortStable(found, key, desc, Null);
    WithKeyOfConstant(found, key, Null);
    WithKeyOfConstant(r, key, Null);
  }

  /** JavaScript's `Math.ceil(n / d)` for a non-zero integer `d`. */
  function CeilDiv(n: nat, d: int): (r: int)
    requires d != 0
    ensures d > 0 ==> r >= 0 && r * d >= n && (r - 1) * d < n
    ensures d < 0 ==> r <= 0 && r * d <= n && (r - 1) * d > n
  {
    if d > 0 then
      var r := (n + d - 1) / d;
      DivBounds(n + d - 1, d);
      assert (r + 1) * d == r * d + d;
      assert (r - 1) * d == r * d - d;
      r
    else
      var e := -d;
      var q := n / e;
      DivBounds(n, e);
      assert -q * d == q * e;
      assert (-q - 1) * d == (q + 1) * e;
      -q
  }

  /** Euclidean division by a positive number rounds down. */
  lemma DivBounds(n: nat, e: int)
    requires e > 0
    ensures n / e >= 0
    ensures (n / e) * e <= n < (n / e + 1) * e
  {
    assert n == (n / e) * e + n % e;
    assert (n / e + 1) * e == (n / e) * e + e;
  }

  /** What GET /api/assets answers with. `totalPages` is `None` where the
      division by a zero limit gives no finite number. */
  datatype Page = Page(items: seq<Entry<Asset>>, total: nat, totalPages: Option<int>, currentPage: int)

  /** How many items `.skip(skip).limit(limit)` keeps of `len` results: a
      zero limit means no limit, and a negative one is taken by its
      magnitude. */
  function Taken(len: nat, skip: nat, limit: int): (n: nat)
    ensures skip + n <= len || n == 0
    ensures limit != 0 ==> n <= if limit < 0 then -limit else limit
    ensures skip < len && limit == 0 ==> n == len - skip
    ensures skip < len && limit != 0 ==>
              n == if len - skip < (if limit < 0 then -limit else limit) then len - skip
                   else (if limit < 0 then -limit else limit)
    ensures skip >= len ==> n == 0
  {
    if skip >= len then 0
    else
      var rest := len - skip;
      var cap := if limit < 0 then -limit else limit;
      if limit == 0 || rest < cap then rest else cap
  }

  /** The results `.skip(skip).limit(limit)` keeps: a contiguous run of
      `all` starting at `skip`. */
  function Window<T>(all: seq<T>, skip: nat, limit: int): (w: seq<T>)
    ensures |w| == Taken(|all|, skip, limit)
    ensures forall i :: 0 <= i < |w| ==> skip + i < |all| && w[i] == all[skip + i]
  {
    var n := Taken(|all|, skip, limit);
    if n == 0 then [] else all[skip..skip + n]
  }

  /** `Math.ceil(total / limit)`; a zero limit gives no finite number. */
  function TotalPages(total: nat, limit: int): (t: Option<int>)
    ensures t.None? <==> limit == 0
    ensures limit > 0 ==> t.value * limit >= total && (t.value - 1) * limit < total
    ensures limit < 0 ==> t.value <= 0 && t.value * limit <= total && (t.value - 1) * limit > total
  {
    if limit == 0 then None else Some(CeilDiv(total, limit))
  }

  /** GET /api/assets: filter, sort, skip `(page - 1) * limit` results and
      keep `limit` of them; the database refuses a negative skip. */
  function GetAssets(s: Store, q: AssetFilter, field: SortField, desc: bool, page: int, limit: int): (r: Result<Page>)
    ensures r.Err? <==> (page - 1) * limit < 0
    ensures r.Err? ==> r.failure == Rejected
    ensures r.Ok? ==> r.value.total == |Matching(s.assets, Filter(q))|
    ensures r.Ok? ==> r.value.currentPage == page
    ensures r.Ok? ==> r.value.totalPages == TotalPages(r.value.total, limit)
    ensures r.Ok? ==> r.value.items == Window(Listing(s, q, field, desc), (page - 1) * limit, limit)
  {
    var skip := (page - 1) * limit;
    if skip < 0 then Err(Rejected)
    else
      var all := Listing(s, q, field, desc);
      Ok(Page(Window(all, skip, limit), |all|, TotalPages(|all|, limit), page))
  }

  /** Position `k` of a listing paged by `limit` lies on page `k / limit + 1`,
      at offset `k % limit`, and that page is within the page count. */
  lemma PageOfPosition(k: nat, total: nat, limit: int)
    requires limit > 0 && k < total
    ensures (k / limit) * limit + k % limit == k
    ensures 0 <= k % limit < limit
    ensures 0 <= (k / limit) * limit <= k
    ensures k / limit + 1 <= TotalPages(total, limit).value
  {
    var tp := TotalPages(total, limit).value;
    DivBounds(k, limit);
    var p := k / limit;
    assert p * limit < tp * limit;
    ScaledLess(p, tp, limit);
  }

  /** Multiplying by a positive number keeps strict order. */
  lemma ScaledLess(a: int, b: int, c: int)
    requires c > 0 && a * c < b * c
    ensures a < b
  {
  }

  /** Paging through the listing with a positive limit shows every matching
      asset: the one at position `k` is item `k % limit` of page
      `k / limit + 1`, and that page is within `totalPages`. */
  lemma EveryAssetOnItsPage(s: Store, q: AssetFilter, field: SortField, desc: bool, limit: int, k: nat)
    requires limit > 0
    requires k < |Listing(s, q, field, desc)|
    ensures var r := GetAssets(s, q, field, desc, k / limit + 1, limit);
            && r.Ok?
            && k % limit < |r.value.items|
            && r.value.items[k % limit] == Listing(s, q, field, desc)[k]
            && k / limit + 1 <= r.value.totalPages.value
  {
    var all := Listing(s, q, field, desc);
    PageOfPosition(k, |all|, limit);
    assert (k / limit + 1 - 1) * limit == (k / limit) * limit;
    WindowAtPosition(all, k, limit);
  }

  lemma WindowAtPosition<T>(all: seq<T>, k: nat, limit: int)
    requires limit > 0 && k < |all|
    ensures 0 <= (k / limit) * limit
    ensures var w := Window(all, (k / limit) * limit, limit);
            k % limit < |w| && w[k % limit] == all[k]
  {
    PageOfPosition(k, |all|, limit);
    var off := k % limit;
    var skip: nat := (k / limit) * limit;
    assert skip + off == k;
    assert off < limit && off < |all| - skip;
    var w := Window(all, skip, limit);
    assert off < |w|;
  }

  /** No asset shows on two pages, nor twice on one: a matching asset sits
      at one position of the listing, and each page is a window of it. */
  lemma OnlyOnItsPage(s: Store, q: AssetFilter, field: SortField, desc: bool, limit: int, page: int, i: nat, k: nat)
    requires limit > 0 && page >= 1
    requires k < |Listing(s, q, field, desc)|
    requires var r := GetAssets(s, q, field, desc, page, limit);
             r.Ok? && i < |r.value.items| && r.value.items[i].id == Listing(s, q, field, desc)[k].id
    ensures (page - 1) * limit + i == k
  {
  }

  /** GET /api/assets/:id. */
  function GetAsset(s: Store, id: AssetId): (r: Result<Asset>)
    ensures r.Ok? <==> id in s.assets
    ensures r.Ok? ==> r.value == s.assets[id]
    ensures r.Err? ==> r.failure == NotFound
  {
    if id in s.assets then Ok(s.assets[id]) else Err(NotFound)
  }

  /** The body of POST /api/assets. Fields the client leaves out are `None`,
      and so is a `folder` of `null`. Ids are numbers here, so a `folder`
      given as an empty string, which validation refuses with 400, is a
      request this type cannot express. */
  datatype AssetRequest = AssetRequest(
    name: Option<string>,
    description: Option<string>,
    fileUrl: Option<string>,
    fileType: Option<string>,
    fileSize: Option<int>,
    mimeType: Option<string>,
    folder: Option<FolderId>,
    tags: Option<seq<TagId>>,
    thumbnail: Option<string>,
    isPublic: Option<bool>)

  /** The asset validation schema: a name of 1 to 255 characters, a
      description of at most 1000, and one of the seven file types. */
  predicate AssetRequestValid(req: AssetRequest) {
    && req.name.Some? && 1 <= |req.name.value| <= 255
    && (req.description.Some? ==> |req.description.value| <= 1000)
    && req.fileType.Some? && ParseFileType(req.fileType.value).Some?
  }

  /** The schema's `required` validators on the values of a valid request:
      the trimmed name, the file URL and the MIME type non-empty, a size given. */
  predicate RequestSaves(req: AssetRequest)
    requires AssetRequestValid(req)
  {
    && Trim(req.name.value) != ""
    && Truthy(req.fileUrl)
    && req.fileSize.Some?
    && Truthy(req.mimeType)
  }

  /** POST /api/assets: validate, then store the asset with the schema's
      defaults. `now` is the creation time the timestamps option records. */
  function CreateAsset(s: Store, req: AssetRequest, user: UserId, now: nat): (r: Reply<Entry<Asset>>)
    ensures r.result.Err? ==> r.store == s
    ensures !AssetRequestValid(req) ==> r.result == Err(Invalid)
    ensures r.result.Ok? <==> AssetRequestValid(req) && RequestSaves(req)
    ensures r.result.Err? && AssetRequestValid(req) ==> r.result.failure == Rejected
    ensures r.result.Ok? ==>
              var e := r.result.value;
              && s.issued <= e.id && Unmentioned(s, e.id)
              && (forall a :: a in s.assets ==> a < e.id)
              && r.store == s.(assets := s.assets[e.id := e.doc], issued := e.id + 1)
              && e.doc.name == Trim(req.name.value)
              && e.doc.description == req.description.GetOr("")
              && e.doc.fileUrl == req.fileUrl.value
              && Some(e.doc.fileType) == ParseFileType(req.fileType.value)
              && e.doc.fileSize == req.fileSize.value
              && e.doc.mimeType == req.mimeType.value
              && e.doc.folder == req.folder
              && e.doc.tags == req.tags.GetOr([])
              && e.doc.uploadedBy == user
              && e.doc.thumbnail == req.thumbnail
              && e.doc.downloads == 0 && e.doc.views == 0
              && e.doc.isPublic == req.isPublic.GetOr(true)
              && e.doc.createdAt == now
  {
    if !AssetRequestValid(req) then Reply(Err(Invalid), s)
    else if !RequestSaves(req) then Reply(Err(Rejected), s)
    else
      var a := Asset(Trim(req.name.value), req.description.GetOr(""), req.fileUrl.value,
                     ParseFileType(req.fileType.value).value, req.fileSize.value, req.mimeType.value,
                     req.folder, req.tags.GetOr([]), user, req.thumbnail, 0, 0,
                     req.isPublic.GetOr(true), now);
      var id := NewId(s);
      NewIdAbove(s);
      Reply(Ok(Entry(id, a)), s.(assets := s.assets[id := a], issued := id + 1))
  }

  /** Creating an asset does not look at the folders or tags it names:
      a request naming a folder and tags that do not exist is stored as
      it is. */
  lemma CreateIgnoresReferences(s: Store, req: AssetRequest, user: UserId, now: nat, f: FolderId, t: TagId)
    requires AssetRequestValid(req) && RequestSaves(req)
    requires req.folder == Some(f) && f !in s.folders
    requires req.tags == Some([t]) && t !in s.tags
    ensures var r := CreateAsset(s, req, user, now);
            && r.result.Ok?
            && r.store.assets[r.result.value.id].folder == Some(f)
            && r.store.assets[r.result.value.id].tags == [t]
  {
  }

  /** The body of PUT /api/assets/:id; the handler runs no validation on it. */
  datatype AssetPatch = AssetPatch(
    name: Option<string>,
    description: Patch<string>,
    folder: Patch<Option<FolderId>>,
    tags: Patch<seq<TagId>>,
    isPublic: Patch<bool>)

  /** PUT /api/assets/:id: a falsy name keeps the stored one; the other
      fields are replaced exactly when given. */
  function UpdateAsset(s: Store, id: AssetId, patch: AssetPatch): (r: Reply<Entry<Asset>>)
    ensures r.result.Err? ==> r.store == s
    ensures r.result == Err(NotFound) <==> id !in s.assets
    ensures r.result.Err? ==> r.result.failure == NotFound || r.result.failure == Rejected
    ensures id in s.assets ==>
              (r.result.Ok? <==> AssetSaves(s.assets[id].(name := Trim(OrElse(patch.name, s.assets[id].name)))))
    ensures r.result.Ok? ==>
              var e := r.result.value;
              var prev := s.assets[id];
              && e.id == id
              && r.store == s.(assets := s.assets[id := e.doc])
              && (Truthy(patch.name) ==> e.doc.name == Trim(patch.name.value))
              && (!Truthy(patch.name) ==> e.doc.name == Trim(prev.name))
              && e.doc.description == patch.description.Apply(prev.description)
              && e.doc.folder == patch.folder.Apply(prev.folder)
              && e.doc.tags == patch.tags.Apply(prev.tags)
              && e.doc.isPublic == patch.isPublic.Apply(prev.isPublic)
              && e.doc.fileUrl == prev.fileUrl && e.doc.fileType == prev.fileType
              && e.doc.fileSize == prev.fileSize && e.doc.mimeType == prev.mimeType
              && e.doc.uploadedBy == prev.uploadedBy && e.doc.thumbnail == prev.thumbnail
              && e.doc.downloads == prev.downloads && e.doc.views == prev.views
              && e.doc.createdAt == prev.createdAt
  {
    if id !in s.assets then Reply(Err(NotFound), s)
    else
      var prev := s.assets[id];
      var a := prev.(name := Trim(OrElse(patch.name, prev.name)),
                     description := patch.description.Apply(prev.description),
                     folder := patch.folder.Apply(prev.folder),
                     tags := patch.tags.Apply(prev.tags),
                     isPublic := patch.isPublic.Apply(prev.isPublic));
      if !AssetSaves(a) then Reply(Err(Rejected), s)
      else Reply(Ok(Entry(id, a)), s.(assets := s.assets[id := a]))
  }

  /** Updating an asset does not look at the folder or tags it names
      either. */
  lemma UpdateIgnoresReferences(s: Store, id: AssetId, f: FolderId, t: TagId)
    requires id in s.assets && AssetSaves(s.assets[id]) && IsTrimmed(s.assets[id].name)
    requires f !in s.folders && t !in s.tags
    ensures var r := UpdateAsset(s, id, AssetPatch(None, Keep, Set(Some(f)), Set([t]), Keep));
            && r.result.Ok?
            && r.store.assets[id].folder == Some(f)
            && r.store.assets[id].tags == [t]
  {
    TrimFixesTrimmed(s.assets[id].name);
  }

  /** DELETE /api/assets/:id. */
  function DeleteAsset(s: Store, id: AssetId): (r: Reply<()>)
    ensures r.result.Err? <==> id !in s.assets
    ensures r.result.Err? ==> r.result.failure == NotFound && r.store == s
    ensures r.result.Ok? ==>
              && r.store.assets == s.assets - {id}
              && r.store.folders == s.folders
              && r.store.tags == s.tags
  {
    if id !in s.assets then Reply(Err(NotFound), s)
    else Reply(Ok(()), s.(assets := s.assets - {id}))
  }

  /** Deleting an asset just created gives back the store as it was, but
      for the id counter. */
  lemma CreateThenDeleteAsset(s: Store, req: AssetRequest, user: UserId, now: nat)
    ensures var r := CreateAsset(s, req, user, now);
            r.result.Ok? ==>
              DeleteAsset(r.store, r.result.value.id) == Reply(Ok(()), s.(issued := r.store.issued))
  {
    var r := CreateAsset(s, req, user, now);
    if r.result.Ok? {
      DeleteFreshAsset(s.(issued := r.store.issued), r.result.value.id, r.result.value.doc);
    }
  }

  /** Deleting an asset stored under a fresh id. */
  lemma DeleteFreshAsset(s: Store, id: AssetId, a: Asset)
    requires id !in s.assets
    ensures DeleteAsset(s.(assets := s.assets[id := a]), id) == Reply(Ok(()), s)
  {
    assert s.assets[id := a] - {id} == s.assets;
  }

  /** The two counters a client can raise. */
  datatype Counter = Downloads | Views

  function Count(a: Asset, c: Counter): nat {
    match c
    case Downloads => a.downloads
    case Views => a.views
  }

  /** POST /api/assets/:id/download and /view: add one to the counter, save,
      and answer with the new value. */
  function Increment(s: Store, id: AssetId, c: Counter): (r: Reply<nat>)
    ensures r.result.Err? ==> r.store == s
    ensures r.result == Err(NotFound) <==> id !in s.assets
    ensures id in s.assets ==> (r.result.Ok? <==> AssetSaves(s.assets[id]))
    ensures r.result.Ok? ==>
              r.store.folders == s.folders && r.store.tags == s.tags && r.store.assets.Keys == s.assets.Keys
    ensures r.result.Ok? ==>
              var prev := s.assets[id];
              var a := r.store.assets[id];
              && (forall b :: b in s.assets && b != id ==> r.store.assets[b] == s.assets[b])
              && Count(a, c) == Count(prev, c) + 1
              && r.result.value == Count(a, c)
              && (c == Downloads ==> a == prev.(downloads := prev.downloads + 1))
              && (c == Views ==> a == prev.(views := prev.views + 1))
  {
    if id !in s.assets then Reply(Err(NotFound), s)
    else
      var prev := s.assets[id];
      var a := match c
        case Downloads => prev.(downloads := prev.downloads + 1)
        case Views => prev.(views := prev.views + 1);
      if !AssetSaves(a) then Reply(Err(Rejected), s)
      else Reply(Ok(Count(a, c)), s.(assets := s.assets[id := a]))
  }

  /** Every stored asset passes the schema's `required` validators. */
  ghost predicate AssetsSaved(s: Store) {
    forall a :: a in s.assets ==> AssetSaves(s.assets[a])
  }

  /** On a store of saved assets the counters never fail for an existing
      asset, and raising the two counters in either order gives the same
      store. */
  lemma CountersCommute(s: Store, id: AssetId)
    requires AssetsSaved(s) && id in s.assets
    ensures Increment(s, id, Downloads).result.Ok?
    ensures Increment(Increment(s, id, Downloads).store, id, Views).store
         == Increment(Increment(s, id, Views).store, id, Downloads).store
  {
    var a := s.assets[id];
    var d := Increment(s, id, Downloads).store;
    var v := Increment(s, id, Views).store;
    assert d.assets[id] == a.(downloads := a.downloads + 1);
    assert v.assets[id] == a.(views := a.views + 1);
  }

  lemma CreateKeepsSaved(s: Store, req: AssetRequest, user: UserId, now: nat)
    requires AssetsSaved(s)
    ensures AssetsSaved(CreateAsset(s, req, user, now).store)
  {
  }

  lemma UpdateKeepsSaved(s: Store, id: AssetId, patch: AssetPatch)
    requires AssetsSaved(s)
    ensures AssetsSaved(UpdateAsset(s, id, patch).store)
  {
  }

  lemma IncrementKeepsSaved(s: Store, id: AssetId, c: Counter)
    requires AssetsSaved(s)
    ensures AssetsSaved(Increment(s, id, c).store)
  {
  }
}
