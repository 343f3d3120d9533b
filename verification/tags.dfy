/** The tag handlers: listing, reading one tag with its assets, creating,
    renaming, deleting with the cascade over assets, and the popular-tags
    ranking.

    Tag names are stored through the schema's `trim` and `lowercase`
    setters, and the same setters apply to the value a lookup by name
    filters on, so a lookup with `name.toLowerCase()` finds the stored name
    `Normalize(name)`. The schema's unique index on names refuses a save that
    would duplicate a name.
 */
module Tags {
  import opened Outcomes
  import opened Text
  import opened Sorting
  import opened Models
  import opened Store

  /** Sort key of `.sort({ name: 1 })` on tags. */
  function TagName(e: Entry<Tag>): Key {
    Str(e.doc.name)
  }

  /** The empty filter of `Tag.find()`. */
  function AnyTag(): Tag -> bool {
    (t: Tag) => true
  }

  /** Some stored tag has name `n`: what `Tag.findOne({ name })` finds. */
  predicate NameInUse(s: Store, n: string) {
    exists t :: t in s.tags && s.tags[t].name == n
  }

  /** Some stored tag other than `id` has name `n`: what the unique index
      refuses when `id` is saved with name `n`. */
  predicate NameHeldByOther(s: Store, id: TagId, n: string) {
    exists t :: t in s.tags && t != id && s.tags[t].name == n
  }

  /** `Tag.find().sort({ name: 1 })`: every tag by ascending name. */
  function TagsByName(s: Store): (r: seq<Entry<Tag>>)
    ensures forall i :: 0 <= i < |r| ==> r[i].id in s.tags && r[i].doc == s.tags[r[i].id]
    ensures forall t :: t in s.tags ==> Entry(t, s.tags[t]) in r
    ensures DistinctIds(r)
    ensures forall i, j :: 0 <= i < j < |r| ==> StrLe(r[i].doc.name, r[j].doc.name)
  {
    var r := FindSorted(s.tags, AnyTag(), TagName, false);
    forall t | t in s.tags ensures Entry(t, s.tags[t]) in r {
      assert AnyTag()(s.tags[t]);
    }
    forall i, j | 0 <= i < j < |r| ensures StrLe(r[i].doc.name, r[j].doc.name) {
      assert Precedes(TagName, false, r[i], r[j]);
    }
    r
  }

  /** Each tag of `es` with the number of assets carrying it. */
  function WithTagCounts(s: Store, es: seq<Entry<Tag>>): (r: seq<Counted<Tag>>)
    ensures |r| == |es|
    ensures forall i :: 0 <= i < |r| ==>
              r[i].id == es[i].id && r[i].doc == es[i].doc && r[i].assetCount == |AssetsTagged(s, es[i].id)|
    ensures forall e :: e in es ==> Counted(e.id, e.doc, |AssetsTagged(s, e.id)|) in r
  {
    var r := seq(|es|, i requires 0 <= i < |es| => Counted(es[i].id, es[i].doc, TagAssetCount(s, es[i].id)));
    forall e | e in es ensures Counted(e.id, e.doc, |AssetsTagged(s, e.id)|) in r {
      var i :| 0 <= i < |es| && es[i] == e;
      assert r[i] == Counted(e.id, e.doc, |AssetsTagged(s, e.id)|);
    }
    r
  }

  /** GET /api/tags: every tag by ascending name, each with the number of
      assets whose tag list contains it. */
  function ListTags(s: Store): (r: seq<Counted<Tag>>)
    ensures forall i :: 0 <= i < |r| ==>
              && r[i].id in s.tags
              && r[i].doc == s.tags[r[i].id]
              && r[i].assetCount == |AssetsTagged(s, r[i].id)|
    ensures forall t :: t in s.tags ==> Counted(t, s.tags[t], |AssetsTagged(s, t)|) in r
    ensures forall i, j :: 0 <= i < j < |r| ==> r[i].id != r[j].id
    ensures forall i, j :: 0 <= i < j < |r| ==> StrLe(r[i].doc.name, r[j].doc.name)
  {
    WithTagCounts(s, TagsByName(s))
  }

  /** `Asset.find({ tags: id }).sort({ createdAt: -1 })`. */
  function TaggedNewestFirst(s: Store, id: TagId): (r: seq<Entry<Asset>>)
    ensures forall i :: 0 <= i < |r| ==>
              r[i].id in s.assets && r[i].doc == s.assets[r[i].id] && id in r[i].doc.tags
    ensures forall a :: a in s.assets && id in s.assets[a].tags ==> Entry(a, s.assets[a]) in r
    ensures DistinctIds(r)
    ensures forall i, j :: 0 <= i < j < |r| ==> r[i].doc.createdAt >= r[j].doc.createdAt
  {
    var r := FindSorted(s.assets, HasTag(id), CreatedAt, true);
    NewestFirst(r);
    r
  }

  /** What GET /api/tags/:id answers with. */
  datatype TagContents = TagContents(tag: Tag, assets: seq<Entry<Asset>>)

  /** GET /api/tags/:id: the tag and the assets carrying it, newest first. */
  function GetTag(s: Store, id: TagId): (r: Result<TagContents>)
    ensures r.Err? <==> id !in s.tags
    ensures r.Err? ==> r.failure == NotFound
    ensures r.Ok? ==> r.value.tag == s.tags[id]
    ensures r.Ok? ==>
              var assets := r.value.assets;
              && (forall i :: 0 <= i < |assets| ==>
                    assets[i].id in s.assets && assets[i].doc == s.assets[assets[i].id] && id in assets[i].doc.tags)
              && (forall a :: a in s.assets && id in s.assets[a].tags ==> Entry(a, s.assets[a]) in assets)
              && DistinctIds(assets)
              && (forall i, j :: 0 <= i < j < |assets| ==> assets[i].doc.createdAt >= assets[j].doc.createdAt)
  {
    if id !in s.tags then Err(NotFound)
    else Ok(TagContents(s.tags[id], TaggedNewestFirst(s, id)))
  }

  /** The body of POST /api/tags. */
  datatype TagRequest = TagRequest(name: Option<string>, color: Option<string>)

  /** The tag validation schema: a name of 1 to 50 characters and a colour
      matching the hex pattern. */
  predicate TagRequestValid(req: TagRequest) {
    && req.name.Some? && 1 <= |req.name.value| <= 50
    && (req.color.Some? ==> IsHexColor(req.color.value))
  }

  /** POST /api/tags: validate, refuse a name already in use, then store
      the tag under its normalized name. */
  function CreateTag(s: Store, req: TagRequest, user: UserId): (r: Reply<Entry<Tag>>)
    ensures r.result.Err? ==> r.store == s
    ensures !TagRequestValid(req) ==> r.result == Err(Invalid)
    ensures TagRequestValid(req) ==>
              (r.result == Err(NameTaken) <==> NameInUse(s, Normalize(req.name.value)))
    ensures r.result.Ok? <==>
              TagRequestValid(req) && !NameInUse(s, Normalize(req.name.value)) && Normalize(req.name.value) != ""
    ensures r.result.Ok? ==>
              var e := r.result.value;
              && s.issued <= e.id && Unmentioned(s, e.id)
              && r.store == s.(tags := s.tags[e.id := e.doc], issued := e.id + 1)
              && e.doc.name == Normalize(req.name.value)
              && (req.color.Some? ==> e.doc.color == req.color.value)
              && (req.color.None? ==> e.doc.color == DefaultTagColor)
              && e.doc.createdBy == user
  {
    if !TagRequestValid(req) then Reply(Err(Invalid), s)
    else if NameInUse(s, Normalize(req.name.value)) then Reply(Err(NameTaken), s)
    else
      var t := NewTag(Lower(req.name.value), Some(OrElse(req.color, DefaultTagColor)), user);
      LowerThenNormalize(req.name.value);
      var id := NewId(s);
      FreshHoldsNoName(s, id, t.name);
      if !TagSaves(t) || NameHeldByOther(s, id, t.name) then Reply(Err(Rejected), s)
      else Reply(Ok(Entry(id, t)), s.(tags := s.tags[id := t], issued := id + 1))
  }

  /** For an id no stored tag has, the unique index refuses exactly the
      names in use. */
  lemma FreshHoldsNoName(s: Store, id: TagId, n: string)
    requires id !in s.tags
    ensures NameHeldByOther(s, id, n) <==> NameInUse(s, n)
  {
  }

  /** Lower-casing before the setters changes nothing. */
  lemma LowerThenNormalize(n: string)
    ensures Normalize(Lower(n)) == Normalize(n)
  {
    assert Lower(Lower(n)) == Lower(n);
  }

  /** The body of PUT /api/tags/:id; the handler runs no validation on it. */
  datatype TagPatch = TagPatch(name: Option<string>, color: Option<string>)

  /** The collision check runs only for a truthy name whose lower-cased form
      differs from the stored name. */
  predicate ChecksName(stored: Tag, patch: TagPatch) {
    Truthy(patch.name) && Lower(patch.name.value) != stored.name
  }

  /** The name a rename leaves the tag with: the new name as the setters
      store it when one is given, else the stored name, which is assigned
      back and so passes the setters again. */
  function RenamedTo(prev: Tag, patch: TagPatch): string {
    if Truthy(patch.name) then Normalize(patch.name.value) else Normalize(prev.name)
  }

  /** PUT /api/tags/:id. */
  function UpdateTag(s: Store, id: TagId, patch: TagPatch): (r: Reply<Entry<Tag>>)
    ensures r.result.Err? ==> r.store == s
    ensures r.result.Err? ==> r.result.failure == NotFound || r.result.failure == NameTaken || r.result.failure == Rejected
    ensures r.result == Err(NotFound) <==> id !in s.tags
    ensures id in s.tags ==>
              (r.result == Err(NameTaken) <==>
                 ChecksName(s.tags[id], patch) && NameInUse(s, Normalize(patch.name.value)))
    ensures id in s.tags ==>
              (r.result.Ok? <==>
                 && !(ChecksName(s.tags[id], patch) && NameInUse(s, Normalize(patch.name.value)))
                 && RenamedTo(s.tags[id], patch) != ""
                 && !NameHeldByOther(s, id, RenamedTo(s.tags[id], patch)))
    ensures r.result.Ok? ==>
              var e := r.result.value;
              var prev := s.tags[id];
              && e.id == id
              && r.store == s.(tags := s.tags[id := e.doc])
              && (Truthy(patch.name) ==> e.doc.name == Normalize(patch.name.value))
              && (!Truthy(patch.name) ==> e.doc.name == Normalize(prev.name))
              && (Truthy(patch.color) ==> e.doc.color == patch.color.value)
              && (!Truthy(patch.color) ==> e.doc.color == prev.color)
              && e.doc.createdBy == prev.createdBy
              && e.doc.name != ""
              && !NameHeldByOther(s, id, e.doc.name)
  {
    if id !in s.tags then Reply(Err(NotFound), s)
    else
      var prev := s.tags[id];
      if ChecksName(prev, patch) && NameInUse(s, Normalize(patch.name.value)) then Reply(Err(NameTaken), s)
      else
        var name := Normalize(if Truthy(patch.name) then Lower(patch.name.value) else prev.name);
        LowerThenNormalize(if Truthy(patch.name) then patch.name.value else "");
        var t := Tag(name, OrElse(patch.color, prev.color), prev.createdBy);
        if !TagSaves(t) || NameHeldByOther(s, id, name) then Reply(Err(Rejected), s)
        else Reply(Ok(Entry(id, t)), s.(tags := s.tags[id := t]))
  }

  /** The `$pull` of `id` from a tag list: every copy removed, the other
      entries kept in order. */
  function Pull(ids: seq<TagId>, id: TagId): (r: seq<TagId>)
    ensures id !in r
    ensures forall t :: t in r <==> t in ids && t != id
  {
    if ids == [] then [] else (if ids[0] == id then [] else [ids[0]]) + Pull(ids[1..], id)
  }

  /** Pulling distributes over concatenation and keeps each other entry, so
      it is exactly the order-preserving removal of `id`. */
  lemma {:induction false} PullConcat(xs: seq<TagId>, ys: seq<TagId>, id: TagId)
    ensures Pull(xs + ys, id) == Pull(xs, id) + Pull(ys, id)
  {
    if xs != [] {
      assert (xs + ys)[1..] == xs[1..] + ys;
      PullConcat(xs[1..], ys, id);
    } else {
      assert xs + ys == ys;
    }
  }

  lemma PullSingle(t: TagId, id: TagId)
    ensures Pull([t], id) == if t == id then [] else [t]
  {
  }

  /** A list without the id is left as it is. */
  lemma {:induction false} PullAbsent(ids: seq<TagId>, id: TagId)
    requires id !in ids
    ensures Pull(ids, id) == ids
  {
    if ids != [] {
      PullAbsent(ids[1..], id);
      assert ids == [ids[0]] + ids[1..];
    }
  }

  /** Every asset after the cascade of DELETE /api/tags/:id. */
  function PullEverywhere(assets: map<AssetId, Asset>, id: TagId): (r: map<AssetId, Asset>)
    ensures r.Keys == assets.Keys
    ensures forall a :: a in r ==> r[a] == assets[a].(tags := Pull(assets[a].tags, id))
  {
    map a | a in assets :: assets[a].(tags := Pull(assets[a].tags, id))
  }

  /** DELETE /api/tags/:id: pull the id from every asset, then remove the tag. */
  function DeleteTag(s: Store, id: TagId): (r: Reply<()>)
    ensures r.result.Err? <==> id !in s.tags
    ensures r.result.Err? ==> r.result.failure == NotFound && r.store == s
    ensures r.result.Ok? ==>
              && r.store.tags == s.tags - {id}
              && r.store.folders == s.folders
              && r.store.assets.Keys == s.assets.Keys
              && (forall a :: a in r.store.assets ==> id !in r.store.assets[a].tags)
              && (forall a :: a in r.store.assets ==>
                    r.store.assets[a] == s.assets[a].(tags := Pull(s.assets[a].tags, id)))
              && (forall a :: a in s.assets && id !in s.assets[a].tags ==>
                    r.store.assets[a] == s.assets[a])
  {
    if id !in s.tags then Reply(Err(NotFound), s)
    else
      var assets := PullEverywhere(s.assets, id);
      forall a | a in s.assets && id !in s.assets[a].tags ensures assets[a] == s.assets[a] {
        PullAbsent(s.assets[a].tags, id);
      }
      Reply(Ok(()), s.(tags := s.tags - {id}, assets := assets))
  }

  /** Deleting a tag twice: the second delete finds nothing and changes nothing. */
  lemma DeleteTwice(s: Store, id: TagId)
    requires id in s.tags
    ensures var t := DeleteTag(s, id).store;
            DeleteTag(t, id) == Reply(Err(NotFound), t)
  {
  }

  /** Deleting a tag just created succeeds, pulls nothing, and gives back
      the store as it was, but for the id counter: no asset can carry a new id. */
  lemma CreateThenDeleteTag(s: Store, req: TagRequest, user: UserId)
    ensures var r := CreateTag(s, req, user);
            r.result.Ok? ==>
              DeleteTag(r.store, r.result.value.id) == Reply(Ok(()), s.(issued := r.store.issued))
  {
    var r := CreateTag(s, req, user);
    if r.result.Ok? {
      DeleteFreshTag(s.(issued := r.store.issued), r.result.value.id, r.result.value.doc);
    }
  }

  /** Deleting a tag stored under an id that nothing else holds or refers to. */
  lemma DeleteFreshTag(s: Store, id: TagId, t: Tag)
    requires Unmentioned(s, id)
    ensures DeleteTag(s.(tags := s.tags[id := t]), id) == Reply(Ok(()), s)
  {
    var d := DeleteTag(s.(tags := s.tags[id := t]), id).store;
    forall a | a in s.assets ensures d.assets[a] == s.assets[a] {
      assert id !in s.assets[a].tags;
    }
    assert d.assets == s.assets;
    assert d.tags == s.tags;
  }

  /** Stored tag names are as the setters leave them, not empty, and
      pairwise distinct. */
  ghost predicate TagNamesOk(s: Store) {
    && (forall t :: t in s.tags ==> IsNormalized(s.tags[t].name) && s.tags[t].name != "")
    && (forall t, u :: t in s.tags && u in s.tags && t != u ==> s.tags[t].name != s.tags[u].name)
  }

  /** Storing under `id` a tag whose name is saved form and held by no
      other tag keeps the names in order. */
  lemma PutKeepsTagNames(s: Store, id: TagId, t: Tag)
    requires TagNamesOk(s)
    requires IsNormalized(t.name) && t.name != ""
    requires !NameHeldByOther(s, id, t.name)
    ensures TagNamesOk(s.(tags := s.tags[id := t]))
  {
    var tags := s.tags[id := t];
    forall a, b | a in tags && b in tags && a != b ensures tags[a].name != tags[b].name {
      if a != id && b != id {
        assert tags[a] == s.tags[a] && tags[b] == s.tags[b];
      }
    }
  }

  lemma CreateKeepsTagNames(s: Store, req: TagRequest, user: UserId)
    requires TagNamesOk(s)
    ensures TagNamesOk(CreateTag(s, req, user).store)
  {
    var r := CreateTag(s, req, user);
    if r.result.Ok? {
      var e := r.result.value;
      NormalizeIsNormalized(req.name.value);
      assert !NameInUse(s, e.doc.name);
      PutKeepsTagNames(s, e.id, e.doc);
    }
  }

  lemma UpdateKeepsTagNames(s: Store, id: TagId, patch: TagPatch)
    requires TagNamesOk(s)
    ensures TagNamesOk(UpdateTag(s, id, patch).store)
  {
    var r := UpdateTag(s, id, patch);
    if r.result.Ok? {
      var e := r.result.value;
      if Truthy(patch.name) {
        NormalizeIsNormalized(patch.name.value);
      } else {
        NormalizeIsNormalized(s.tags[id].name);
      }
      PutKeepsTagNames(s, id, e.doc);
    }
  }

  lemma DeleteKeepsTagNames(s: Store, id: TagId)
    requires TagNamesOk(s)
    ensures TagNamesOk(DeleteTag(s, id).store)
  {
  }

  /** With the names as saved, the unique index never refuses a new tag
      that passed the handler's own checks. */
  lemma CreateNeverCollides(s: Store, req: TagRequest, user: UserId)
    requires TagNamesOk(s)
    requires TagRequestValid(req) && Normalize(req.name.value) != ""
    ensures CreateTag(s, req, user).result != Err(Rejected)
  {
  }

  /** With the names as saved, the unique index never refuses a rename
      that passed the handler's own checks. */
  lemma UpdateNeverCollides(s: Store, id: TagId, patch: TagPatch)
    requires TagNamesOk(s) && id in s.tags
    requires Truthy(patch.name) ==> Normalize(patch.name.value) != ""
    ensures UpdateTag(s, id, patch).result != Err(Rejected)
  {
    var prev := s.tags[id];
    var n := RenamedTo(prev, patch);
    if !(ChecksName(prev, patch) && NameInUse(s, Normalize(patch.name.value))) {
      if !ChecksName(prev, patch) {
        if Truthy(patch.name) {
          LowerEqualMeansSameName(patch.name.value, prev.name);
        } else {
          NormalizeIsNormalized(prev.name);
        }
        assert n == prev.name;
      }
      assert !NameHeldByOther(s, id, n);
    }
  }

  /** Renaming a tag to its own name in another case skips the collision
      check and succeeds, keeping the stored name. */
  lemma RenameSameNameAccepted(s: Store, id: TagId, name: string)
    requires TagNamesOk(s) && id in s.tags
    requires name != "" && Lower(name) == s.tags[id].name
    ensures var r := UpdateTag(s, id, TagPatch(Some(name), None));
            r.result.Ok? && r.store.tags[id].name == s.tags[id].name
  {
    var stored := s.tags[id].name;
    var patch := TagPatch(Some(name), None);
    LowerEqualMeansSameName(name, stored);
    assert !ChecksName(s.tags[id], patch);
    assert RenamedTo(s.tags[id], patch) == stored;
    assert !NameHeldByOther(s, id, stored);
  }

  /** Renaming a tag to a name another tag holds fails and changes nothing. */
  lemma RenameToTakenRefused(s: Store, id: TagId, other: TagId, name: string)
    requires TagNamesOk(s) && id in s.tags && other in s.tags && id != other
    requires name != "" && Normalize(name) == s.tags[other].name
    ensures UpdateTag(s, id, TagPatch(Some(name), None)) == Reply(Err(NameTaken), s)
  {
    var stored := s.tags[id].name;
    if Lower(name) == stored {
      LowerEqualMeansSameName(name, stored);
    }
    assert ChecksName(s.tags[id], TagPatch(Some(name), None));
    assert NameInUse(s, Normalize(name)) by {
      assert s.tags[other].name == Normalize(name);
    }
  }

  /** Renaming a tag to its own name with surrounding white space is
      refused: the lower-cased name differs from the stored one, so the
      lookup runs, and the lookup, trimmed by the setters, finds the tag
      itself. */
  lemma PaddedOwnNameRefused(s: Store, id: TagId)
    requires TagNamesOk(s) && id in s.tags
    ensures var name := " " + s.tags[id].name;
            UpdateTag(s, id, TagPatch(Some(name), None)) == Reply(Err(NameTaken), s)
  {
    PaddedName(s.tags[id].name);
  }

  /** Sort key of the popular ranking: the asset count (used descending). */
  function AssetCount(e: Counted<Tag>): Key {
    Num(e.assetCount)
  }

  /** `parseInt(req.query.limit) || 10`: a missing or unparsable value
      (`None`) and 0 both give 10. */
  function PopularLimit(parsed: Option<int>): (n: int)
    ensures n != 0
    ensures parsed.Some? && parsed.value != 0 ==> n == parsed.value
    ensures parsed.None? || parsed.value == 0 ==> n == 10
  {
    if parsed.Some? && parsed.value != 0 then parsed.value else 10
  }

  /** The length JavaScript's `slice(0, end)` keeps of a list of `len`
      elements: a negative end counts back from the end of the list. */
  function SliceEnd(len: nat, end: int): (n: nat)
    ensures n <= len
    ensures end >= 0 ==> n == if end < len then end else len
    ensures end < 0 ==> n == if len + end > 0 then len + end else 0
  {
    if end >= 0 then (if end < len then end else len)
    else if len + end > 0 then len + end else 0
  }

  /** Every tag in natural order with its count: `Tag.find()` followed by
      the counting loop. */
  function TagCounts(s: Store): (r: seq<Counted<Tag>>)
    ensures |r| == |s.tags.Keys|
    ensures forall i :: 0 <= i < |r| ==>
              r[i].id in s.tags && r[i].doc == s.tags[r[i].id] && r[i].assetCount == |AssetsTagged(s, r[i].id)|
    ensures forall i, j :: 0 <= i < j < |r| ==> r[i].id < r[j].id
    ensures forall t :: t in s.tags ==> Counted(t, s.tags[t], |AssetsTagged(s, t)|) in r
  {
    var es := Entries(s.tags);
    EntriesCount(s.tags);
    var r := WithTagCounts(s, es);
    forall i, j | 0 <= i < j < |r| ensures r[i].id < r[j].id {
      assert r[i].id == es[i].id && r[j].id == es[j].id;
    }
    forall t | t in s.tags ensures Counted(t, s.tags[t], |AssetsTagged(s, t)|) in r {
      assert Entry(t, s.tags[t]) in es;
    }
    r
  }

  lemma EntriesCount<V>(m: map<nat, V>)
    ensures |Entries(m)| == |m.Keys|
  {
    CountIsMatching(m, (v: V) => true);
    assert Matching(m, (v: V) => true) == m.Keys;
    CountAll(Entries(m), (v: V) => true);
  }

  lemma {:induction false} CountAll<V>(es: seq<Entry<V>>, p: V -> bool)
    requires forall v :: p(v)
    ensures CountWhere(es, p) == |es|
  {
    if es != [] {
      CountAll(es[1..], p);
    }
  }

  /** The ranking before truncation: the counted tags stably sorted by
      count, highest first. */
  function Ranked(s: Store): (r: seq<Counted<Tag>>)
    ensures |r| == |s.tags.Keys|
    ensures multiset(r) == multiset(TagCounts(s))
    ensures SortedBy(r, AssetCount, true)
  {
    SortBy(TagCounts(s), AssetCount, true)
  }

  /** GET /api/tags/popular: the first `limit` tags of the ranking, with
      JavaScript's `slice(0, limit)`. */
  function PopularTags(s: Store, parsed: Option<int>): (r: seq<Counted<Tag>>)
    ensures |r| == SliceEnd(|s.tags.Keys|, PopularLimit(parsed))
    ensures r == Ranked(s)[..|r|]
  {
    var ranked := Ranked(s);
    ranked[..SliceEnd(|ranked|, PopularLimit(parsed))]
  }

  /** An element of a sequence with increasing ids occurs in it once. */
  lemma {:induction false} CountedOnce(es: seq<Counted<Tag>>, x: Counted<Tag>)
    requires forall i, j :: 0 <= i < j < |es| ==> es[i].id < es[j].id
    ensures multiset(es)[x] <= 1
  {
    if es != [] {
      assert es == [es[0]] + es[1..];
      CountedOnce(es[1..], x);
      if es[0] == x {
        assert x !in es[1..];
      }
    }
  }

  /** Every tag of the ranking is a stored tag with its true count. */
  lemma RankedAreCounted(s: Store)
    ensures forall i :: 0 <= i < |Ranked(s)| ==> Ranked(s)[i] in TagCounts(s)
  {
    var ranked := Ranked(s);
    forall i | 0 <= i < |ranked| ensures ranked[i] in TagCounts(s) {
      assert ranked[i] in multiset(TagCounts(s));
    }
  }

  /** Every tag of a prefix of the ranking is a stored tag with its true count. */
  lemma PrefixCounted(s: Store, counted: seq<Counted<Tag>>, ranked: seq<Counted<Tag>>, r: seq<Counted<Tag>>)
    requires forall i :: 0 <= i < |counted| ==>
               counted[i].id in s.tags && counted[i].doc == s.tags[counted[i].id]
               && counted[i].assetCount == |AssetsTagged(s, counted[i].id)|
    requires forall i :: 0 <= i < |ranked| ==> ranked[i] in counted
    requires |r| <= |ranked| && r == ranked[..|r|]
    ensures forall i :: 0 <= i < |r| ==>
              r[i].id in s.tags && r[i].doc == s.tags[r[i].id] && r[i].assetCount == |AssetsTagged(s, r[i].id)|
  {
    forall i | 0 <= i < |r|
      ensures r[i].id in s.tags && r[i].doc == s.tags[r[i].id] && r[i].assetCount == |AssetsTagged(s, r[i].id)|
    {
      assert r[i] == ranked[i];
      assert r[i] in counted;
      var k :| 0 <= k < |counted| && counted[k] == r[i];
    }
  }

  /** Each returned tag is a stored tag with its true count. */
  lemma PopularAreCounted(s: Store, parsed: Option<int>)
    ensures var r := PopularTags(s, parsed);
            forall i :: 0 <= i < |r| ==>
              r[i].id in s.tags && r[i].doc == s.tags[r[i].id] && r[i].assetCount == |AssetsTagged(s, r[i].id)|
  {
    RankedAreCounted(s);
    PrefixCounted(s, TagCounts(s), Ranked(s), PopularTags(s, parsed));
  }

  /** Reordering a counted list with increasing ids keeps its ids distinct. */
  lemma ReorderedDistinct(counted: seq<Counted<Tag>>, ranked: seq<Counted<Tag>>)
    requires forall i, j :: 0 <= i < j < |counted| ==> counted[i].id < counted[j].id
    requires multiset(ranked) == multiset(counted)
    ensures forall i, j :: 0 <= i < j < |ranked| ==> ranked[i].id != ranked[j].id
  {
    forall i, j | 0 <= i < j < |ranked| ensures ranked[i].id != ranked[j].id {
      assert ranked[i] in multiset(counted) && ranked[j] in multiset(counted);
      if ranked[i] == ranked[j] {
        TwiceInMultiset(ranked, i, j);
        CountedOnce(counted, ranked[i]);
      } else {
        var a :| 0 <= a < |counted| && counted[a] == ranked[i];
        var b :| 0 <= b < |counted| && counted[b] == ranked[j];
        assert a != b;
      }
    }
  }

  /** No tag is returned twice. */
  lemma PopularDistinct(s: Store, parsed: Option<int>)
    ensures var r := PopularTags(s, parsed);
            forall i, j :: 0 <= i < j < |r| ==> r[i].id != r[j].id
  {
    ReorderedDistinct(TagCounts(s), Ranked(s));
  }

  /** Sorted on `AssetCount` descending means counts never increase. */
  lemma ByCount(r: seq<Counted<Tag>>)
    requires SortedBy(r, AssetCount, true)
    ensures forall i, j :: 0 <= i < j < |r| ==> r[i].assetCount >= r[j].assetCount
  {
    forall i, j | 0 <= i < j < |r| ensures r[i].assetCount >= r[j].assetCount {
      assert Precedes(AssetCount, true, r[i], r[j]);
    }
  }

  /** Counts never increase down the answer. */
  lemma PopularByCount(s: Store, parsed: Option<int>)
    ensures var r := PopularTags(s, parsed);
            forall i, j :: 0 <= i < j < |r| ==> r[i].assetCount >= r[j].assetCount
  {
    var r := PopularTags(s, parsed);
    var ranked := Ranked(s);
    ByCount(ranked);
    forall i, j | 0 <= i < j < |r| ensures r[i].assetCount >= r[j].assetCount {
      assert r[i] == ranked[i] && r[j] == ranked[j];
    }
  }

  /** A positive limit returns that many tags, or all of them when there
      are fewer. */
  lemma PopularLength(s: Store, limit: int)
    requires limit > 0
    ensures |PopularTags(s, Some(limit))| == if limit < |s.tags.Keys| then limit else |s.tags.Keys|
  {
  }

  /** No tag left out of the answer carries more assets than a tag in it. */
  lemma PopularAreTop(s: Store, parsed: Option<int>, t: TagId)
    requires t in s.tags
    requires forall i :: 0 <= i < |PopularTags(s, parsed)| ==> PopularTags(s, parsed)[i].id != t
    ensures forall i :: 0 <= i < |PopularTags(s, parsed)| ==>
              PopularTags(s, parsed)[i].assetCount >= |AssetsTagged(s, t)|
  {
    var x := Counted(t, s.tags[t], |AssetsTagged(s, t)|);
    assert x in TagCounts(s);
    ByCount(Ranked(s));
    TopOfRanking(TagCounts(s), Ranked(s), PopularTags(s, parsed), x);
  }

  /** In a list sorted by count, highest first, an element left out of a
      prefix carries no more than any element of the prefix. */
  lemma TopOfRanking(counted: seq<Counted<Tag>>, ranked: seq<Counted<Tag>>, r: seq<Counted<Tag>>, x: Counted<Tag>)
    requires multiset(ranked) == multiset(counted)
    requires forall i, j :: 0 <= i < j < |ranked| ==> ranked[i].assetCount >= ranked[j].assetCount
    requires |r| <= |ranked| && r == ranked[..|r|]
    requires x in counted
    requires forall i :: 0 <= i < |r| ==> r[i].id != x.id
    ensures forall i :: 0 <= i < |r| ==> r[i].assetCount >= x.assetCount
  {
    assert x in multiset(counted);
    assert x in ranked;
    var j :| 0 <= j < |ranked| && ranked[j] == x;
    assert forall i :: 0 <= i < |r| ==> ranked[i] == r[i];
    assert j >= |r|;
  }

  /** Ties keep natural order: for every count, the returned tags with that
      count are the first tags with that count in store order. */
  lemma PopularTiesInStoreOrder(s: Store, parsed: Option<int>, c: nat)
    ensures WithKey(PopularTags(s, parsed), AssetCount, Num(c)) <= WithKey(TagCounts(s), AssetCount, Num(c))
  {
    var ranked := Ranked(s);
    SortStable(TagCounts(s), AssetCount, true, Num(c));
    WithKeyOfPrefix(ranked, |PopularTags(s, parsed)|, AssetCount, Num(c));
  }
}
