/** The document store the controllers read and write: one collection per
    schema, each a finite map from document id to document.

    A collection's natural order (what an unsorted `find()` returns) is
    taken to be ascending id order. Ids come from one counter shared by the
    three collections, as ObjectIds do: a new document's id was never handed
    out before, and no stored document holds or refers to it, so natural
    order is insertion order.
 */
module Store {
  import opened Outcomes
  import opened Models
  import opened Sorting
  import opened Text

  /** `issued` is the id counter: every id handed out so far is below it. */
  datatype Store = Store(
    folders: map<FolderId, Folder>,
    tags: map<TagId, Tag>,
    assets: map<AssetId, Asset>,
    issued: nat)

  /** What a handler answers, and the store it leaves behind. */
  datatype Reply<+T> = Reply(result: Result<T>, store: Store)

  /** A document together with its id, as a query returns it. */
  datatype Entry<+V> = Entry(id: nat, doc: V)

  /** A document, its id, and the number of assets counted for it. */
  datatype Counted<+V> = Counted(id: nat, doc: V, assetCount: nat)

  /** No id occurs twice in a query result. */
  predicate DistinctIds<V>(es: seq<Entry<V>>) {
    forall i, j :: 0 <= i < j < |es| ==> es[i].id != es[j].id
  }

  /** Ids strictly increase along a query result: natural order. */
  predicate AscendingIds<V>(es: seq<Entry<V>>) {
    forall i, j :: 0 <= i < j < |es| ==> es[i].id < es[j].id
  }

  lemma {:induction false} LeastOf(s: set<nat>) returns (m: nat)
    requires s != {}
    ensures m in s && forall x :: x in s ==> m <= x
    decreases s
  {
    var y :| y in s;
    if s - {y} == {} {
      assert s == {y};
      m := y;
    } else {
      var least := LeastOf(s - {y});
      m := if y < least then y else least;
      forall x | x in s ensures m <= x {
        if x != y {
          assert x in s - {y};
        }
      }
    }
  }

  lemma HasLeast(s: set<nat>)
    requires s != {}
    ensures exists m :: m in s && forall x :: x in s ==> m <= x
  {
    var m := LeastOf(s);
  }

  function Least(s: set<nat>): (m: nat)
    requires s != {}
    ensures m in s && forall x :: x in s ==> m <= x
  {
    HasLeast(s);
    var m :| m in s && forall x :: x in s ==> m <= x;
    m
  }

  /** The members of `s`, ascending. */
  function Ascending(s: set<nat>): (r: seq<nat>)
    ensures forall i, j :: 0 <= i < j < |r| ==> r[i] < r[j]
    ensures forall x :: x in s <==> x in r
    decreases s
  {
    if s == {} then []
    else
      var m := Least(s);
      var rest := Ascending(s - {m});
      assert forall x :: x in rest ==> m < x;
      [m] + rest
  }

  function EntriesOf<V>(ids: seq<nat>, m: map<nat, V>): (r: seq<Entry<V>>)
    requires forall k :: k in ids ==> k in m
    ensures |r| == |ids|
    ensures forall i :: 0 <= i < |r| ==> r[i] == Entry(ids[i], m[ids[i]])
  {
    if ids == [] then [] else [Entry(ids[0], m[ids[0]])] + EntriesOf(ids[1..], m)
  }

  /** Every document of a collection, in natural order. */
  function Entries<V>(m: map<nat, V>): (r: seq<Entry<V>>)
    ensures AscendingIds(r)
    ensures forall k :: k in m ==> Entry(k, m[k]) in r
    ensures forall i :: 0 <= i < |r| ==> r[i].id in m && r[i].doc == m[r[i].id]
  {
    var ids := Ascending(m.Keys);
    var r := EntriesOf(ids, m);
    forall k | k in m ensures Entry(k, m[k]) in r {
      var i :| 0 <= i < |ids| && ids[i] == k;
      assert r[i] == Entry(k, m[k]);
    }
    r
  }

  /** Every id the store holds or refers to: the documents' own ids, the
      folders' parents, and the assets' folders and tags. */
  function Mentioned(s: Store): set<nat> {
    s.folders.Keys + s.tags.Keys + s.assets.Keys
    + (set f | f in s.folders && s.folders[f].parentFolder.Some? :: s.folders[f].parentFolder.value)
    + (set a | a in s.assets && s.assets[a].folder.Some? :: s.assets[a].folder.value)
    + (set a, t | a in s.assets && t in s.assets[a].tags :: t)
  }

  /** No document of `s` has id `id` or refers to it. */
  predicate Unmentioned(s: Store, id: nat) {
    && id !in s.folders && id !in s.tags && id !in s.assets
    && (forall f :: f in s.folders ==> s.folders[f].parentFolder != Some(id))
    && (forall a :: a in s.assets ==> s.assets[a].folder != Some(id))
    && (forall a :: a in s.assets ==> id !in s.assets[a].tags)
  }

  /** A number above every member of `ids`. */
  function Above(ids: set<nat>): (b: nat)
    ensures forall k :: k in ids ==> k < b
  {
    var sorted := Ascending(ids);
    if sorted == [] then 0
    else
      var top := sorted[|sorted| - 1];
      assert forall k :: k in ids ==> k <= top by {
        forall k | k in ids ensures k <= top {
          assert k in sorted;
        }
      }
      top + 1
  }

  /** The id the next document gets, in any collection: never handed out
      before, above every stored id, and referred to by no document. */
  function NewId(s: Store): (id: nat)
    ensures s.issued <= id
    ensures Unmentioned(s, id)
  {
    var ms := Mentioned(s);
    var id := if Above(ms) < s.issued then s.issued else Above(ms);
    assert Unmentioned(s, id) by {
      forall f | f in s.folders ensures s.folders[f].parentFolder != Some(id) {
        if s.folders[f].parentFolder.Some? {
          assert s.folders[f].parentFolder.value in ms;
        }
      }
      forall a | a in s.assets ensures s.assets[a].folder != Some(id) {
        if s.assets[a].folder.Some? {
          assert s.assets[a].folder.value in ms;
        }
      }
      forall a | a in s.assets ensures id !in s.assets[a].tags {
        forall t | t in s.assets[a].tags ensures t in ms {
        }
      }
    }
    id
  }

  /** The new id is above every id the store holds or refers to, so natural
      order is creation order. */
  lemma NewIdAbove(s: Store)
    ensures forall k :: k in Mentioned(s) ==> k < NewId(s)
  {
  }

  /** The number of documents of `es` that satisfy `p`: the database's
      `countDocuments`, scanning the collection. */
  function CountWhere<V>(es: seq<Entry<V>>, p: V -> bool): (n: nat)
    ensures n <= |es|
  {
    if es == [] then 0 else (if p(es[0].doc) then 1 else 0) + CountWhere(es[1..], p)
  }

  /** The documents of `es` that satisfy `p`, in their order in `es`. */
  function Select<V>(es: seq<Entry<V>>, p: V -> bool): (r: seq<Entry<V>>)
    ensures |r| == CountWhere(es, p)
    ensures forall i :: 0 <= i < |r| ==> r[i] in es && p(r[i].doc)
    ensures forall i :: 0 <= i < |es| && p(es[i].doc) ==> es[i] in r
  {
    if es == [] then []
    else (if p(es[0].doc) then [es[0]] else []) + Select(es[1..], p)
  }

  /** Selecting keeps natural order. */
  lemma {:induction false} SelectKeepsOrder<V>(es: seq<Entry<V>>, p: V -> bool)
    requires AscendingIds(es)
    ensures AscendingIds(Select(es, p))
  {
    if es != [] {
      var tail := es[1..];
      var rest := Select(tail, p);
      assert AscendingIds(tail);
      SelectKeepsOrder(tail, p);
      assert forall e :: e in tail ==> es[0].id < e.id;
      assert forall j :: 0 <= j < |rest| ==> rest[j] in tail;
    }
  }

  /** The ids of the documents of `m` that satisfy `p`. */
  ghost function Matching<V>(m: map<nat, V>, p: V -> bool): set<nat> {
    set k | k in m && p(m[k])
  }

  /** The ids in `ids` whose documents satisfy `p`. */
  ghost function Hits<V>(ids: seq<nat>, m: map<nat, V>, p: V -> bool): set<nat>
    requires forall k :: k in ids ==> k in m
  {
    set k | k in ids && p(m[k])
  }

  lemma HitsSplit<V>(ids: seq<nat>, m: map<nat, V>, p: V -> bool)
    requires ids != [] && ids[0] !in ids[1..]
    requires forall k :: k in ids ==> k in m
    ensures |Hits(ids, m, p)| == (if p(m[ids[0]]) then 1 else 0) + |Hits(ids[1..], m, p)|
  {
    var tail := Hits(ids[1..], m, p);
    var all := Hits(ids, m, p);
    assert ids == [ids[0]] + ids[1..];
    assert forall k :: k in ids <==> k == ids[0] || k in ids[1..];
    if p(m[ids[0]]) {
      assert ids[0] !in tail;
      assert all == tail + {ids[0]};
    } else {
      assert all == tail;
    }
  }

  lemma {:induction false} CountDistinct<V>(ids: seq<nat>, m: map<nat, V>, p: V -> bool)
    requires forall k :: k in ids ==> k in m
    requires forall i, j :: 0 <= i < j < |ids| ==> ids[i] < ids[j]
    ensures CountWhere(EntriesOf(ids, m), p) == |Hits(ids, m, p)|
  {
    if ids != [] {
      var tail := ids[1..];
      var es := EntriesOf(ids, m);
      assert es[1..] == EntriesOf(tail, m);
      assert ids[0] !in tail by {
        forall j | 0 <= j < |tail| ensures tail[j] != ids[0] {
          assert tail[j] == ids[j + 1];
        }
      }
      CountDistinct(tail, m, p);
      HitsSplit(ids, m, p);
    }
  }

  /** Counting by scanning the collection in natural order counts exactly the
      documents that match. */
  lemma CountIsMatching<V>(m: map<nat, V>, p: V -> bool)
    ensures CountWhere(Entries(m), p) == |Matching(m, p)|
  {
    var ids := Ascending(m.Keys);
    CountDistinct(ids, m, p);
    assert Hits(ids, m, p) == Matching(m, p);
  }

  lemma SelectEntries<V>(m: map<nat, V>, p: V -> bool)
    ensures var r := Select(Entries(m), p);
            && (forall i :: 0 <= i < |r| ==> r[i].id in m && r[i].doc == m[r[i].id] && p(r[i].doc))
            && (forall k :: k in m && p(m[k]) ==> Entry(k, m[k]) in r)
  {
    var es := Entries(m);
    var r := Select(es, p);
    forall i | 0 <= i < |r| ensures r[i].id in m && r[i].doc == m[r[i].id] && p(r[i].doc) {
      assert r[i] in es;
    }
    forall k | k in m && p(m[k]) ensures Entry(k, m[k]) in r {
      assert Entry(k, m[k]) in es;
    }
  }

  /** An unsorted `find(filter)`: the matching documents in natural order. */
  function Find<V>(m: map<nat, V>, p: V -> bool): (r: seq<Entry<V>>)
    ensures forall i :: 0 <= i < |r| ==> r[i].id in m && r[i].doc == m[r[i].id] && p(r[i].doc)
    ensures forall k :: k in m && p(m[k]) ==> Entry(k, m[k]) in r
    ensures AscendingIds(r)
  {
    SelectEntries(m, p);
    SelectKeepsOrder(Entries(m), p);
    Select(Entries(m), p)
  }

  /** A document occurring at two positions is counted twice by the multiset. */
  lemma TwiceInMultiset<T>(s: seq<T>, i: nat, j: nat)
    requires i < j < |s| && s[i] == s[j]
    ensures multiset(s)[s[i]] >= 2
  {
    assert s == s[..j] + s[j..];
    assert s[i] in s[..j];
    assert s[j] == s[j..][0];
  }

  lemma {:induction false} OnceInMultiset<V>(es: seq<Entry<V>>, x: Entry<V>)
    requires DistinctIds(es)
    ensures multiset(es)[x] <= 1
  {
    if es != [] {
      assert es == [es[0]] + es[1..];
      OnceInMultiset(es[1..], x);
      if es[0] == x {
        assert x !in es[1..];
      }
    }
  }

  lemma IdDeterminesEntry<V>(a: seq<Entry<V>>, x: Entry<V>, y: Entry<V>)
    requires DistinctIds(a)
    requires x in a && y in a && x != y
    ensures x.id != y.id
  {
  }

  /** Reordering a result with distinct ids keeps its ids distinct. */
  lemma DistinctIdsPermutation<V>(a: seq<Entry<V>>, b: seq<Entry<V>>)
    requires multiset(a) == multiset(b)
    requires DistinctIds(a)
    ensures DistinctIds(b)
  {
    forall i, j | 0 <= i < j < |b| ensures b[i].id != b[j].id {
      OnceInMultiset(a, b[i]);
      assert b[i] in multiset(a) && b[j] in multiset(a);
      if b[i] == b[j] {
        TwiceInMultiset(b, i, j);
      } else {
        IdDeterminesEntry(a, b[i], b[j]);
      }
    }
  }

  /** A sorted `find(filter).sort(...)`: the matching documents ordered by
      `key`, documents with equal keys in natural order. */
  function FindSorted<V>(m: map<nat, V>, p: V -> bool, key: Entry<V> -> Key, desc: bool): (r: seq<Entry<V>>)
    ensures forall i :: 0 <= i < |r| ==> r[i].id in m && r[i].doc == m[r[i].id] && p(r[i].doc)
    ensures forall k :: k in m && p(m[k]) ==> Entry(k, m[k]) in r
    ensures DistinctIds(r)
    ensures SortedBy(r, key, desc)
    ensures multiset(r) == multiset(Find(m, p))
  {
    var found := Find(m, p);
    var r := SortBy(found, key, desc);
    SortedFound(found, r);
    DistinctIdsPermutation(found, r);
    r
  }

  lemma SortedFound<V>(found: seq<Entry<V>>, r: seq<Entry<V>>)
    requires multiset(r) == multiset(found)
    ensures forall i :: 0 <= i < |r| ==> r[i] in found
    ensures forall e :: e in found ==> e in r
  {
    forall i | 0 <= i < |r| ensures r[i] in found {
      assert r[i] in multiset(found);
    }
    forall e | e in found ensures e in r {
      assert e in multiset(r);
    }
  }

  /** Sort key of `.sort({ name: 1 })` on folders. */
  function FolderName(e: Entry<Folder>): Key {
    Str(e.doc.name)
  }

  /** Sort key of `.sort({ createdAt: -1 })` on assets (used descending). */
  function CreatedAt(e: Entry<Asset>): Key {
    Num(e.doc.createdAt)
  }

  /** Sorted on `FolderName` ascending means ordered by name. */
  lemma ByName(r: seq<Entry<Folder>>)
    requires SortedBy(r, FolderName, false)
    ensures forall i, j :: 0 <= i < j < |r| ==> StrLe(r[i].doc.name, r[j].doc.name)
  {
    forall i, j | 0 <= i < j < |r| ensures StrLe(r[i].doc.name, r[j].doc.name) {
      assert Precedes(FolderName, false, r[i], r[j]);
    }
  }

  /** Sorted on `CreatedAt` descending means newest first. */
  lemma NewestFirst(r: seq<Entry<Asset>>)
    requires SortedBy(r, CreatedAt, true)
    ensures forall i, j :: 0 <= i < j < |r| ==> r[i].doc.createdAt >= r[j].doc.createdAt
  {
    forall i, j | 0 <= i < j < |r| ensures r[i].doc.createdAt >= r[j].doc.createdAt {
      assert Precedes(CreatedAt, true, r[i], r[j]);
    }
  }

  /** The filter `{ folder: id }` on assets. */
  function InFolder(id: FolderId): Asset -> bool {
    (a: Asset) => a.folder == Some(id)
  }

  /** The filter `{ tags: id }` on assets: the tag list contains the id. */
  function HasTag(id: TagId): Asset -> bool {
    (a: Asset) => id in a.tags
  }

  /** The assets `countDocuments({ folder: id })` counts. */
  ghost function AssetsIn(s: Store, id: FolderId): set<AssetId> {
    set a | a in s.assets && s.assets[a].folder == Some(id)
  }

  /** The assets `countDocuments({ tags: id })` counts: each asset once,
      however often the id occurs in its list. */
  ghost function AssetsTagged(s: Store, id: TagId): set<AssetId> {
    set a | a in s.assets && id in s.assets[a].tags
  }

  /** `Asset.countDocuments({ folder: id })`. */
  function FolderAssetCount(s: Store, id: FolderId): (n: nat)
    ensures n == |AssetsIn(s, id)|
  {
    CountIsMatching(s.assets, InFolder(id));
    assert Matching(s.assets, InFolder(id)) == AssetsIn(s, id);
    CountWhere(Entries(s.assets), InFolder(id))
  }

  /** `Asset.countDocuments({ tags: id })`. */
  function TagAssetCount(s: Store, id: TagId): (n: nat)
    ensures n == |AssetsTagged(s, id)|
  {
    CountIsMatching(s.assets, HasTag(id));
    assert Matching(s.assets, HasTag(id)) == AssetsTagged(s, id);
    CountWhere(Entries(s.assets), HasTag(id))
  }
}
