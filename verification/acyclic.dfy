/** The folder update with the cycle check its comment promises.

    As written, the update refuses a folder as its own parent only inside a
    branch entered when the new parent differs from the folder, so the
    refusal never happens, and no check looks further up the hierarchy.
    The corrected update below walks up from the new parent, at most as many
    steps as there are folders, and refuses the change when it meets the
    folder itself; otherwise it behaves exactly as the update as written.

    With it, and with folder creation and deletion as written, every stored
    folder keeps a chain of parents that ends at a top-level folder, so the
    folder tree lists every folder exactly once.
 */
module Acyclic {
  import opened Outcomes
  import opened Models
  import opened Store
  import opened Folders
  import opened FolderTree

  /** Walking up at most `n` steps from `o` meets `target`. */
  function Reaches(fs: map<FolderId, Folder>, o: Option<FolderId>, target: FolderId, n: nat): bool
    decreases n
  {
    o == Some(target) || (n > 0 && Reaches(fs, Step(fs, o), target, n - 1))
  }

  /** The check meets `target` only at a step it walks. */
  lemma {:induction false} ReachesSound(fs: map<FolderId, Folder>, o: Option<FolderId>, target: FolderId, n: nat)
    returns (k: nat)
    requires Reaches(fs, o, target, n)
    ensures k <= n && Up(fs, o, k) == Some(target)
    decreases n
  {
    if o == Some(target) {
      k := 0;
    } else {
      var j := ReachesSound(fs, Step(fs, o), target, n - 1);
      k := j + 1;
      assert Up(fs, o, k) == Up(fs, Step(fs, o), j);
    }
  }

  /** The check meets `target` at every step it walks. */
  lemma {:induction false} ReachesComplete(fs: map<FolderId, Folder>, o: Option<FolderId>, target: FolderId, n: nat, k: nat)
    requires k <= n && Up(fs, o, k) == Some(target)
    ensures Reaches(fs, o, target, n)
    decreases n
  {
    if k > 0 {
      assert Up(fs, o, k) == Up(fs, Step(fs, o), k - 1);
      ReachesComplete(fs, Step(fs, o), target, n - 1, k - 1);
    }
  }

  /** The check meets `target` exactly when some walk of at most `n` steps does. */
  lemma ReachesExactly(fs: map<FolderId, Folder>, o: Option<FolderId>, target: FolderId, n: nat)
    ensures Reaches(fs, o, target, n) <==> exists k: nat :: k <= n && Up(fs, o, k) == Some(target)
  {
    if Reaches(fs, o, target, n) {
      var k := ReachesSound(fs, o, target, n);
    }
    if exists k: nat :: k <= n && Up(fs, o, k) == Some(target) {
      var k: nat :| k <= n && Up(fs, o, k) == Some(target);
      ReachesComplete(fs, o, target, n, k);
    }
  }

  /** The update would make the folder its own ancestor: the new parent is
      the folder, or the folder is met walking up from the new parent. */
  predicate MakesCycle(fs: map<FolderId, Folder>, id: FolderId, patch: FolderPatch) {
    && patch.parentFolder.Set?
    && patch.parentFolder.value.Some?
    && Reaches(fs, patch.parentFolder.value, id, |fs.Keys|)
  }

  /** PUT /api/folders/:id with the cycle check in place: refused with a
      400 when the new parent is the folder or one of its descendants,
      otherwise as written. */
  function UpdateFolderAcyclic(s: Store, id: FolderId, patch: FolderPatch): (r: Reply<Entry<Folder>>)
    ensures r.result.Err? ==> r.store == s
    ensures r.result == Err(Invalid) <==> id in s.folders && MakesCycle(s.folders, id, patch)
    ensures r.result != Err(Invalid) ==> r == UpdateFolder(s, id, patch)
  {
    if id in s.folders && MakesCycle(s.folders, id, patch) then Reply(Err(Invalid), s)
    else UpdateFolder(s, id, patch)
  }

  /** Every stored folder reaches a top-level folder walking up. */
  ghost predicate AllRooted(fs: map<FolderId, Folder>) {
    forall x :: x in fs ==> Rooted(fs, x)
  }

  /** `fs2` has the folders of `fs`, with the same parents, except perhaps `id`. */
  ghost predicate Agree(fs: map<FolderId, Folder>, fs2: map<FolderId, Folder>, id: FolderId) {
    forall k :: k != id ==>
      && (k in fs <==> k in fs2)
      && (k in fs ==> fs2[k].parentFolder == fs[k].parentFolder)
  }

  /** Every step of a walk ending at a top-level folder is at a stored folder. */
  lemma WalkStored(fs: map<FolderId, Folder>, o: Option<FolderId>, k: nat, d: nat)
    requires k <= d && IsRoot(fs, Up(fs, o, d))
    ensures Up(fs, o, k).Some? && Up(fs, o, k).value in fs
  {
    UpAdd(fs, o, k, d - k);
    if d > k && !(Up(fs, o, k).Some? && Up(fs, o, k).value in fs) {
      assert Step(fs, Up(fs, o, k)) == None;
      UpOneMore(fs, o, k);
      UpAdd(fs, o, k + 1, d - k - 1);
      UpFromNone(fs, d - k - 1);
    }
  }

  /** A walk ending at a top-level folder visits no folder twice. */
  lemma WalkDistinct(fs: map<FolderId, Folder>, o: Option<FolderId>, i: nat, j: nat, d: nat)
    requires i < j <= d && IsRoot(fs, Up(fs, o, d))
    ensures Up(fs, o, i) != Up(fs, o, j)
  {
    if Up(fs, o, i) == Up(fs, o, j) {
      UpAdd(fs, o, i, d - i);
      UpAdd(fs, o, j, d - j);
      DepthUnique(fs, Up(fs, o, i), d - i, d - j);
    }
  }

  /** A list of distinct members of `s` is no longer than `s` is large. */
  lemma {:induction false} DistinctBound(w: seq<FolderId>, s: set<FolderId>)
    requires forall i, j :: 0 <= i < j < |w| ==> w[i] != w[j]
    requires forall i :: 0 <= i < |w| ==> w[i] in s
    ensures |w| <= |s|
  {
    if w != [] {
      var last := w[|w| - 1];
      var init := w[..|w| - 1];
      forall i | 0 <= i < |init| ensures init[i] in s - {last} {
        assert init[i] == w[i];
      }
      DistinctBound(init, s - {last});
    }
  }

  /** A folder's depth is less than the number of folders. */
  lemma DepthBelowSize(fs: map<FolderId, Folder>, o: Option<FolderId>, d: nat)
    requires IsRoot(fs, Up(fs, o, d))
    ensures d < |fs.Keys|
  {
    forall k | 0 <= k <= d ensures Up(fs, o, k).Some? && Up(fs, o, k).value in fs {
      WalkStored(fs, o, k, d);
    }
    var w := seq(d + 1, k requires 0 <= k <= d => Up(fs, o, k).value);
    forall i, j | 0 <= i < j < |w| ensures w[i] != w[j] {
      WalkDistinct(fs, o, i, j, d);
    }
    DistinctBound(w, fs.Keys);
  }

  /** Walking up from a folder that reaches a top-level folder, the check
      meets `id` exactly when `id` is the folder or one of its ancestors. */
  lemma ReachesIsBelow(fs: map<FolderId, Folder>, p: FolderId, id: FolderId)
    requires Rooted(fs, p)
    ensures Reaches(fs, Some(p), id, |fs.Keys|) <==> Below(fs, p, id)
  {
    ReachesExactly(fs, Some(p), id, |fs.Keys|);
    var d: nat :| IsRoot(fs, Up(fs, Some(p), d));
    DepthBelowSize(fs, Some(p), d);
    if Reaches(fs, Some(p), id, |fs.Keys|) {
      var k: nat :| k <= |fs.Keys| && Up(fs, Some(p), k) == Some(id);
      assert Below(fs, p, id);
    }
    if Below(fs, p, id) {
      var k: nat :| Up(fs, Some(p), k) == Some(id);
      WithinDepth(fs, Some(p), d, k);
      assert k <= |fs.Keys| && Up(fs, Some(p), k) == Some(id);
    }
  }

  /** Every folder met walking up is met within the depth. */
  lemma WithinDepth(fs: map<FolderId, Folder>, o: Option<FolderId>, d: nat, k: nat)
    requires IsRoot(fs, Up(fs, o, d)) && Up(fs, o, k).Some?
    ensures k <= d
  {
    if k > d {
      NothingAboveRoot(fs, o, d, k);
    }
  }

  /** A walk to a top-level folder that never meets `id` is the same walk in
      a map that agrees with `fs` everywhere but at `id`. */
  lemma {:induction false} AvoidingWalk(fs: map<FolderId, Folder>, fs2: map<FolderId, Folder>, id: FolderId,
                                        o: Option<FolderId>, d: nat)
    requires Agree(fs, fs2, id)
    requires forall k :: 0 <= k <= d ==> Up(fs, o, k) != Some(id)
    requires IsRoot(fs, Up(fs, o, d))
    ensures IsRoot(fs2, Up(fs2, o, d))
    decreases d
  {
    assert Up(fs, o, 0) != Some(id);
    if d > 0 {
      assert Step(fs2, o) == Step(fs, o);
      forall k | 0 <= k <= d - 1 ensures Up(fs, Step(fs, o), k) != Some(id) {
        assert Up(fs, o, k + 1) == Up(fs, Step(fs, o), k);
      }
      AvoidingWalk(fs, fs2, id, Step(fs, o), d - 1);
    }
  }

  /** Every walk that reached a top-level folder in `fs` still reaches one in
      a map that agrees with `fs` everywhere but at `id`, when `id` itself
      reaches one there. */
  lemma {:induction false} StillRooted(fs: map<FolderId, Folder>, fs2: map<FolderId, Folder>, id: FolderId,
                                       o: Option<FolderId>, n: nat)
    requires Agree(fs, fs2, id)
    requires Rooted(fs2, id)
    requires IsRoot(fs, Up(fs, o, n))
    ensures exists m :: IsRoot(fs2, Up(fs2, o, m))
    decreases n
  {
    if o == Some(id) {
      var m: nat :| IsRoot(fs2, Up(fs2, Some(id), m));
    } else if n == 0 {
      assert IsRoot(fs2, Up(fs2, o, 0));
    } else {
      assert Step(fs2, o) == Step(fs, o);
      StillRooted(fs, fs2, id, Step(fs, o), n - 1);
      var m: nat :| IsRoot(fs2, Up(fs2, Step(fs, o), m));
      assert Up(fs2, o, m + 1) == Up(fs2, Step(fs2, o), m);
    }
  }

  /** When `id` reaches a top-level folder in `fs2`, which agrees with `fs`
      everywhere else, every folder reaching one in `fs` still does. */
  lemma AllStillRooted(fs: map<FolderId, Folder>, fs2: map<FolderId, Folder>, id: FolderId)
    requires AllRooted(fs) && Agree(fs, fs2, id)
    requires id in fs2 && Rooted(fs2, id)
    ensures AllRooted(fs2)
  {
    forall x | x in fs2 ensures Rooted(fs2, x) {
      if x != id {
        assert Rooted(fs, x);
        var n: nat :| IsRoot(fs, Up(fs, Some(x), n));
        StillRooted(fs, fs2, id, Some(x), n);
      }
    }
  }

  /** A folder placed under `p` reaches a top-level folder when `p` does
      without passing through the folder. */
  lemma RootedUnder(fs: map<FolderId, Folder>, fs2: map<FolderId, Folder>, id: FolderId, p: FolderId, d: nat)
    requires Agree(fs, fs2, id)
    requires id in fs2 && fs2[id].parentFolder == Some(p)
    requires forall k :: 0 <= k <= d ==> Up(fs, Some(p), k) != Some(id)
    requires IsRoot(fs, Up(fs, Some(p), d))
    ensures Rooted(fs2, id)
  {
    AvoidingWalk(fs, fs2, id, Some(p), d);
    assert Up(fs2, Some(id), d + 1) == Up(fs2, Some(p), d);
  }

  /** Walking up from the parent of a folder that reaches a top-level folder
      never comes back to the folder. */
  lemma NoReturn(fs: map<FolderId, Folder>, id: FolderId, p: FolderId, k: nat)
    requires id in fs && fs[id].parentFolder == Some(p) && Rooted(fs, id)
    ensures Up(fs, Some(p), k) != Some(id)
  {
    if Up(fs, Some(p), k) == Some(id) {
      var n: nat :| IsRoot(fs, Up(fs, Some(id), n));
      UpAdd(fs, Some(id), 1, k);
      assert Up(fs, Some(id), 1) == Some(p);
      UpAdd(fs, Some(id), k + 1, n);
      DepthUnique(fs, Some(id), n, k + 1 + n);
    }
  }

  /** A folder reaching a top-level folder names a stored parent, if any. */
  lemma RootedParentStored(fs: map<FolderId, Folder>, x: FolderId)
    requires x in fs && Rooted(fs, x) && fs[x].parentFolder.Some?
    ensures fs[x].parentFolder.value in fs
  {
    if fs[x].parentFolder.value !in fs {
      OrphanNotRooted(fs, x);
    }
  }

  /** Giving `id` the parent `q` in a map where every folder reaches a
      top-level folder keeps that so, unless `id` is met walking up from `q`. */
  lemma Reparent(fs: map<FolderId, Folder>, id: FolderId, f: Folder)
    requires AllRooted(fs) && id in fs
    requires f.parentFolder.Some? ==> f.parentFolder.value in fs
    requires f.parentFolder.Some? ==> !Reaches(fs, f.parentFolder, id, |fs.Keys|)
    ensures AllRooted(fs[id := f])
  {
    var fs2 := fs[id := f];
    if f.parentFolder.Some? {
      var p := f.parentFolder.value;
      assert Rooted(fs, p);
      var d: nat :| IsRoot(fs, Up(fs, Some(p), d));
      DepthBelowSize(fs, Some(p), d);
      ReachesExactly(fs, Some(p), id, |fs.Keys|);
      RootedUnder(fs, fs2, id, p, d);
    } else {
      assert IsRoot(fs2, Up(fs2, Some(id), 0));
    }
    AllStillRooted(fs, fs2, id);
  }

  /** The corrected update keeps every folder reaching a top-level folder. */
  lemma UpdateKeepsRooted(s: Store, id: FolderId, patch: FolderPatch)
    requires AllRooted(s.folders)
    ensures AllRooted(UpdateFolderAcyclic(s, id, patch).store.folders)
  {
    var r := UpdateFolderAcyclic(s, id, patch);
    if r.result.Ok? {
      var fs := s.folders;
      var f := r.result.value.doc;
      assert r.store.folders == fs[id := f];
      if patch.parentFolder.Keep? && f.parentFolder.Some? {
        var p := f.parentFolder.value;
        RootedParentStored(fs, id);
        forall k | 0 <= k <= |fs.Keys| ensures Up(fs, Some(p), k) != Some(id) {
          NoReturn(fs, id, p, k);
        }
        ReachesExactly(fs, Some(p), id, |fs.Keys|);
      }
      Reparent(fs, id, f);
    }
  }

  /** Creating a folder keeps every folder reaching a top-level folder. */
  lemma CreateKeepsRooted(s: Store, req: FolderRequest, user: UserId)
    requires AllRooted(s.folders)
    ensures AllRooted(CreateFolder(s, req, user).store.folders)
  {
    var r := CreateFolder(s, req, user);
    if r.result.Ok? {
      var e := r.result.value;
      assert e.doc.parentFolder.Some? ==> e.doc.parentFolder.value in s.folders;
      AddRooted(s.folders, e.id, e.doc);
    }
  }

  /** Adding a folder under a new id, at the top level or under a stored
      folder, keeps every folder reaching a top-level folder. */
  lemma AddRooted(fs: map<FolderId, Folder>, id: FolderId, f: Folder)
    requires AllRooted(fs)
    requires id !in fs
    requires f.parentFolder.Some? ==> f.parentFolder.value in fs
    ensures AllRooted(fs[id := f])
  {
    var fs2 := fs[id := f];
    if f.parentFolder.Some? {
      var p := f.parentFolder.value;
      assert Rooted(fs, p);
      var d: nat :| IsRoot(fs, Up(fs, Some(p), d));
      forall k | 0 <= k <= d ensures Up(fs, Some(p), k) != Some(id) {
        WalkStored(fs, Some(p), k, d);
      }
      RootedUnder(fs, fs2, id, p, d);
    } else {
      assert IsRoot(fs2, Up(fs2, Some(id), 0));
    }
    AllStillRooted(fs, fs2, id);
  }

  /** Deleting a folder, which needs it to have no subfolders, keeps every
      remaining folder reaching a top-level folder. */
  lemma DeleteKeepsRooted(s: Store, id: FolderId)
    requires AllRooted(s.folders)
    ensures AllRooted(DeleteFolder(s, id).store.folders)
  {
    var r := DeleteFolder(s, id);
    if r.result.Ok? {
      assert r.store.folders == s.folders - {id};
      RemoveLeaf(s.folders, id);
    }
  }

  /** Removing a folder no folder names as parent keeps every remaining
      folder reaching a top-level folder. */
  lemma RemoveLeaf(fs: map<FolderId, Folder>, id: FolderId)
    requires AllRooted(fs)
    requires forall f :: f in fs ==> fs[f].parentFolder != Some(id)
    ensures AllRooted(fs - {id})
  {
    var fs2 := fs - {id};
    forall x | x in fs2 ensures Rooted(fs2, x) {
      assert Rooted(fs, x);
      var n: nat :| IsRoot(fs, Up(fs, Some(x), n));
      forall k | 0 <= k <= n ensures Up(fs, Some(x), k) != Some(id) {
        if k > 0 {
          WalkStored(fs, Some(x), k - 1, n);
          UpOneMore(fs, Some(x), k - 1);
        }
      }
      AvoidingWalk(fs, fs2, id, Some(x), n);
    }
  }

  /** With every folder reaching a top-level folder, the tree lists every
      stored folder `x` exactly once, and nothing else. */
  lemma TreeComplete(s: Store, x: FolderId)
    requires AllRooted(s.folders)
    ensures x in s.folders ==> multiset(Flatten(GetFolderTree(s)))[x] == 1
    ensures x in Flatten(GetFolderTree(s)) <==> x in s.folders
  {
    TreeCounts(s, x);
    if Rooted(s.folders, x) {
      RootedStored(s.folders, x);
    }
  }

  /** A folder that reaches a top-level folder is itself stored. */
  lemma RootedStored(fs: map<FolderId, Folder>, x: FolderId)
    requires Rooted(fs, x)
    ensures x in fs
  {
    var n: nat :| IsRoot(fs, Up(fs, Some(x), n));
    WalkStored(fs, Some(x), 0, n);
  }

  /** With every folder reaching a top-level folder, the corrected update
      refuses a new parent exactly when it is the folder or one of its
      descendants. */
  lemma RefusedExactlyOnCycle(s: Store, id: FolderId, p: FolderId)
    requires AllRooted(s.folders) && id in s.folders && p in s.folders
    ensures UpdateFolderAcyclic(s, id, MoveTo(Some(p))).result == Err(Invalid) <==> Below(s.folders, p, id)
  {
    ReachesIsBelow(s.folders, p, id);
  }

  /** A folder can no longer be made its own parent. */
  lemma SelfParentRefused(s: Store, id: FolderId)
    requires id in s.folders
    ensures UpdateFolderAcyclic(s, id, MoveTo(Some(id))) == Reply(Err(Invalid), s)
  {
  }

  /** Nor can a folder be moved under its own subfolder. */
  lemma CycleRefused(s: Store, a: FolderId, b: FolderId)
    requires a in s.folders && b in s.folders && a != b
    requires s.folders[b].parentFolder == Some(a)
    ensures UpdateFolderAcyclic(s, a, MoveTo(Some(b))) == Reply(Err(Invalid), s)
  {
    var n := |s.folders.Keys|;
    assert n > 0 by {
      assert a in s.folders.Keys;
    }
    assert Step(s.folders, Some(b)) == Some(a);
    assert Reaches(s.folders, Some(a), a, n - 1);
    assert Reaches(s.folders, Some(b), a, n);
  }
}
