/** GET /api/folders/tree: every folder, nested under its parent.

    The handler lists all folders by name and builds the tree recursively:
    the top level is the folders without a parent, and the children of a
    folder are the folders naming it as parent, each with its own children.
    A folder whose chain of parents never reaches a top-level folder (it
    names a missing folder, itself, or a cycle) is never visited, so it is
    left out of the tree; every other folder appears exactly once.

    The recursion is modelled with the chain of ancestors of the folder
    whose children are being built; a child of the last folder on the chain
    is never on it, which is what makes the recursion terminate.
 */
module FolderTree {
  import opened Outcomes
  import opened Text
  import opened Models
  import opened Store
  import opened Folders

  datatype TreeNode = TreeNode(id: FolderId, folder: Folder, children: seq<TreeNode>)

  /** One step up the hierarchy: the parent of a stored folder, and nothing
      above a missing folder or above nothing. */
  function Step(fs: map<FolderId, Folder>, o: Option<FolderId>): (r: Option<FolderId>)
    ensures r.Some? ==> o.Some? && o.value in fs && fs[o.value].parentFolder == r
  {
    if o.Some? && o.value in fs then fs[o.value].parentFolder else None
  }

  /** `n` steps up the hierarchy. */
  function Up(fs: map<FolderId, Folder>, o: Option<FolderId>, n: nat): Option<FolderId>
    decreases n
  {
    if n == 0 then o else Up(fs, Step(fs, o), n - 1)
  }

  /** A stored folder at the top level. */
  predicate IsRoot(fs: map<FolderId, Folder>, o: Option<FolderId>) {
    o.Some? && o.value in fs && fs[o.value].parentFolder.None?
  }

  /** Walking up from `x` reaches a top-level folder. */
  ghost predicate Rooted(fs: map<FolderId, Folder>, x: FolderId) {
    exists n :: IsRoot(fs, Up(fs, Some(x), n))
  }

  /** `a` is `x` or one of its ancestors. */
  ghost predicate Below(fs: map<FolderId, Folder>, x: FolderId, a: FolderId) {
    exists k :: Up(fs, Some(x), k) == Some(a)
  }

  lemma {:induction false} UpAdd(fs: map<FolderId, Folder>, o: Option<FolderId>, i: nat, j: nat)
    ensures Up(fs, o, i + j) == Up(fs, Up(fs, o, i), j)
    decreases i
  {
    if i > 0 {
      UpAdd(fs, Step(fs, o), i - 1, j);
    }
  }

  /** One more step up is one step from where `n` steps lead. */
  lemma UpOneMore(fs: map<FolderId, Folder>, o: Option<FolderId>, n: nat)
    ensures Up(fs, o, n + 1) == Step(fs, Up(fs, o, n))
  {
    UpAdd(fs, o, n, 1);
  }

  lemma {:induction false} UpFromNone(fs: map<FolderId, Folder>, n: nat)
    ensures Up(fs, None, n) == None
  {
    if n > 0 {
      UpFromNone(fs, n - 1);
    }
  }

  /** Above a top-level folder there is nothing. */
  lemma NothingAboveRoot(fs: map<FolderId, Folder>, o: Option<FolderId>, n: nat, m: nat)
    requires n < m && IsRoot(fs, Up(fs, o, n))
    ensures Up(fs, o, m) == None
  {
    UpAdd(fs, o, n, m - n);
    UpFromNone(fs, m - n - 1);
  }

  /** A folder is a top-level folder after exactly one number of steps up:
      its depth. */
  lemma DepthUnique(fs: map<FolderId, Folder>, o: Option<FolderId>, n: nat, m: nat)
    requires IsRoot(fs, Up(fs, o, n)) && IsRoot(fs, Up(fs, o, m))
    ensures n == m
  {
    if n < m {
      NothingAboveRoot(fs, o, n, m);
    } else if m < n {
      NothingAboveRoot(fs, o, m, n);
    }
  }

  /** Two ancestors of the same folder at the same depth are the same folder. */
  lemma SameDepthSameAncestor(fs: map<FolderId, Folder>, x: FolderId, a: FolderId, b: FolderId, i: nat, j: nat, d: nat)
    requires Up(fs, Some(x), i) == Some(a) && Up(fs, Some(x), j) == Some(b)
    requires IsRoot(fs, Up(fs, Some(a), d)) && IsRoot(fs, Up(fs, Some(b), d))
    ensures a == b
  {
    UpAdd(fs, Some(x), i, d);
    UpAdd(fs, Some(x), j, d);
    DepthUnique(fs, Some(x), i + d, j + d);
  }

  /** The ancestors of the folder whose children are being built, top-level
      folder first: the folder at position `i` has depth `i`. */
  ghost predicate Chain(fs: map<FolderId, Folder>, c: seq<FolderId>) {
    forall i :: 0 <= i < |c| ==> c[i] in fs && IsRoot(fs, Up(fs, Some(c[i]), i))
  }

  /** The parent the folders built at chain `c` name: none at the top level. */
  function Parent(c: seq<FolderId>): (p: Option<FolderId>)
    ensures p.Some? <==> c != []
  {
    if c == [] then None else Some(c[|c| - 1])
  }

  /** A folder naming the last folder on the chain as parent has the depth
      one past it, so it is not on the chain, and the chain may grow by it. */
  lemma ExtendChain(fs: map<FolderId, Folder>, c: seq<FolderId>, kid: FolderId)
    requires Chain(fs, c)
    requires kid in fs && fs[kid].parentFolder == Parent(c)
    ensures IsRoot(fs, Up(fs, Some(kid), |c|))
    ensures kid !in c
    ensures Chain(fs, c + [kid])
  {
    if c != [] {
      assert Step(fs, Some(kid)) == Some(c[|c| - 1]);
    }
    forall i | 0 <= i < |c| ensures c[i] != kid {
      if c[i] == kid {
        DepthUnique(fs, Some(kid), i, |c|);
      }
    }
  }

  function Remaining(fs: map<FolderId, Folder>, c: seq<FolderId>): nat {
    |fs.Keys - set x | x in c|
  }

  lemma Shrinks(fs: map<FolderId, Folder>, c: seq<FolderId>, kid: FolderId)
    requires kid in fs && kid !in c
    ensures Remaining(fs, c + [kid]) < Remaining(fs, c)
  {
    var before := fs.Keys - set x | x in c;
    var after := fs.Keys - set x | x in c + [kid];
    assert after == before - {kid};
    assert kid in before;
  }

  /** Folders listed in ascending name order. */
  predicate NameOrdered(es: seq<Entry<Folder>>) {
    forall i, j :: 0 <= i < j < |es| ==> StrLe(es[i].doc.name, es[j].doc.name)
  }

  /** What the handler builds from: every stored folder once, by name. */
  ghost predicate Listing(fs: map<FolderId, Folder>, order: seq<Entry<Folder>>) {
    && (forall i :: 0 <= i < |order| ==> order[i].id in fs && order[i].doc == fs[order[i].id])
    && (forall f :: f in fs ==> Entry(f, fs[f]) in order)
    && DistinctIds(order)
    && NameOrdered(order)
  }

  /** The `filter` step: the listed folders naming `p` as parent, in listing order. */
  function Kids(order: seq<Entry<Folder>>, p: Option<FolderId>): (r: seq<Entry<Folder>>)
    ensures forall i :: 0 <= i < |r| ==> r[i] in order && r[i].doc.parentFolder == p
    ensures forall e :: e in order && e.doc.parentFolder == p ==> e in r
  {
    if order == [] then []
    else (if order[0].doc.parentFolder == p then [order[0]] else []) + Kids(order[1..], p)
  }

  /** Filtering keeps the ids distinct. */
  lemma {:induction false} KidsKeepDistinct(order: seq<Entry<Folder>>, p: Option<FolderId>)
    requires DistinctIds(order)
    ensures DistinctIds(Kids(order, p))
  {
    if order != [] {
      var tail := order[1..];
      var rest := Kids(tail, p);
      KidsKeepDistinct(tail, p);
      if order[0].doc.parentFolder == p {
        var r := [order[0]] + rest;
        forall i | 0 <= i < |rest| ensures rest[i].id != order[0].id {
          var j :| 0 <= j < |tail| && tail[j] == rest[i];
          assert order[j + 1] == rest[i];
        }
        forall i, j | 0 <= i < j < |r| ensures r[i].id != r[j].id {
          assert r[j] == rest[j - 1];
          if i > 0 {
            assert r[i] == rest[i - 1];
          }
        }
      }
    }
  }

  /** A folder whose name comes no later than every name of an ordered
      list may go in front of it. */
  lemma ConsNameOrdered(e: Entry<Folder>, rest: seq<Entry<Folder>>)
    requires NameOrdered(rest)
    requires forall i :: 0 <= i < |rest| ==> StrLe(e.doc.name, rest[i].doc.name)
    ensures NameOrdered([e] + rest)
  {
    var r := [e] + rest;
    forall i, j | 0 <= i < j < |r| ensures StrLe(r[i].doc.name, r[j].doc.name) {
      assert r[j] == rest[j - 1];
      if i > 0 {
        assert r[i] == rest[i - 1];
      }
    }
  }

  /** Filtering keeps the name order. */
  lemma {:induction false} KidsKeepOrder(order: seq<Entry<Folder>>, p: Option<FolderId>)
    requires NameOrdered(order)
    ensures NameOrdered(Kids(order, p))
  {
    if order != [] {
      var tail := order[1..];
      var rest := Kids(tail, p);
      KidsKeepOrder(tail, p);
      if order[0].doc.parentFolder == p {
        forall i | 0 <= i < |rest| ensures StrLe(order[0].doc.name, rest[i].doc.name) {
          var j :| 0 <= j < |tail| && tail[j] == rest[i];
          assert order[j + 1] == rest[i];
        }
        ConsNameOrdered(order[0], rest);
      }
    }
  }

  /** The kids handed to `Nodes`: stored folders, each naming the last
      folder on the chain as parent, distinct and by name. */
  ghost predicate Siblings(fs: map<FolderId, Folder>, c: seq<FolderId>, kids: seq<Entry<Folder>>) {
    && (forall i :: 0 <= i < |kids| ==>
          kids[i].id in fs && kids[i].doc == fs[kids[i].id] && kids[i].doc.parentFolder == Parent(c))
    && DistinctIds(kids)
    && NameOrdered(kids)
  }

  lemma SiblingsTail(fs: map<FolderId, Folder>, c: seq<FolderId>, kids: seq<Entry<Folder>>)
    requires Siblings(fs, c, kids) && kids != []
    ensures Siblings(fs, c, kids[1..])
  {
    var tail := kids[1..];
    assert forall i :: 0 <= i < |tail| ==> tail[i] == kids[i + 1];
  }

  /** A well-formed forest under `parent`: every node is a stored folder
      naming `parent`, siblings are by name, and so on all the way down. */
  ghost predicate Tree(fs: map<FolderId, Folder>, ts: seq<TreeNode>, parent: Option<FolderId>) {
    && (forall i :: 0 <= i < |ts| ==>
          && ts[i].id in fs
          && ts[i].folder == fs[ts[i].id]
          && ts[i].folder.parentFolder == parent
          && Tree(fs, ts[i].children, Some(ts[i].id)))
    && (forall i, j :: 0 <= i < j < |ts| ==> StrLe(ts[i].folder.name, ts[j].folder.name))
  }

  /** Putting a well-formed node first in front of its later siblings. */
  lemma TreeCons(fs: map<FolderId, Folder>, node: TreeNode, rest: seq<TreeNode>, parent: Option<FolderId>)
    requires node.id in fs && node.folder == fs[node.id] && node.folder.parentFolder == parent
    requires Tree(fs, node.children, Some(node.id))
    requires Tree(fs, rest, parent)
    requires forall i :: 0 <= i < |rest| ==> StrLe(node.folder.name, rest[i].folder.name)
    ensures Tree(fs, [node] + rest, parent)
  {
    var r := [node] + rest;
    assert r[0] == node;
    assert forall i :: 0 < i < |r| ==> r[i] == rest[i - 1];
  }

  /** `buildTree(parentId)` with the chain of ancestors ending in `parentId`. */
  function Forest(fs: map<FolderId, Folder>, order: seq<Entry<Folder>>, c: seq<FolderId>): (r: seq<TreeNode>)
    requires Listing(fs, order) && Chain(fs, c)
    decreases Remaining(fs, c), 1, 0
  {
    var kids := Kids(order, Parent(c));
    ForestKids(fs, order, c);
    Nodes(fs, order, c, kids)
  }

  /** The folders `buildTree` maps over are siblings in the sense above. */
  lemma ForestKids(fs: map<FolderId, Folder>, order: seq<Entry<Folder>>, c: seq<FolderId>)
    requires Listing(fs, order)
    ensures Siblings(fs, c, Kids(order, Parent(c)))
  {
    var kids := Kids(order, Parent(c));
    KidsKeepDistinct(order, Parent(c));
    KidsKeepOrder(order, Parent(c));
    forall i | 0 <= i < |kids|
      ensures kids[i].id in fs && kids[i].doc == fs[kids[i].id]
    {
      var j :| 0 <= j < |order| && order[j] == kids[i];
    }
  }

  /** The `map` step: each kid with the forest built beneath it. */
  function Nodes(fs: map<FolderId, Folder>, order: seq<Entry<Folder>>, c: seq<FolderId>,
                 kids: seq<Entry<Folder>>): (r: seq<TreeNode>)
    requires Listing(fs, order) && Chain(fs, c)
    requires Siblings(fs, c, kids)
    ensures |r| == |kids|
    ensures forall i :: 0 <= i < |r| ==> r[i].id == kids[i].id && r[i].folder == kids[i].doc
    decreases Remaining(fs, c), 0, |kids|
  {
    if kids == [] then []
    else
      var k := kids[0];
      ExtendChain(fs, c, k.id);
      Shrinks(fs, c, k.id);
      SiblingsTail(fs, c, kids);
      var rest := Nodes(fs, order, c, kids[1..]);
      var node := TreeNode(k.id, k.doc, Forest(fs, order, c + [k.id]));
      NodesCons(node, rest, kids);
      [node] + rest
  }

  /** A node for the first kid before nodes for the others matches all the kids. */
  lemma NodesCons(node: TreeNode, rest: seq<TreeNode>, kids: seq<Entry<Folder>>)
    requires kids != [] && node.id == kids[0].id && node.folder == kids[0].doc
    requires |rest| == |kids| - 1
    requires forall i :: 0 <= i < |rest| ==> rest[i].id == kids[1..][i].id && rest[i].folder == kids[1..][i].doc
    ensures forall i :: 0 <= i < |kids| ==> ([node] + rest)[i].id == kids[i].id && ([node] + rest)[i].folder == kids[i].doc
  {
    var r := [node] + rest;
    forall i | 0 < i < |r| ensures r[i].id == kids[i].id && r[i].folder == kids[i].doc {
      assert r[i] == rest[i - 1];
      assert kids[1..][i - 1] == kids[i];
    }
  }

  /** The forest `buildTree` returns is well formed at every level. */
  lemma {:induction false} ForestIsTree(fs: map<FolderId, Folder>, order: seq<Entry<Folder>>, c: seq<FolderId>)
    requires Listing(fs, order) && Chain(fs, c)
    ensures Tree(fs, Forest(fs, order, c), Parent(c))
    decreases Remaining(fs, c), 1, 0
  {
    ForestKids(fs, order, c);
    NodesIsTree(fs, order, c, Kids(order, Parent(c)));
  }

  lemma {:induction false} NodesIsTree(fs: map<FolderId, Folder>, order: seq<Entry<Folder>>, c: seq<FolderId>,
                                       kids: seq<Entry<Folder>>)
    requires Listing(fs, order) && Chain(fs, c)
    requires Siblings(fs, c, kids)
    ensures Tree(fs, Nodes(fs, order, c, kids), Parent(c))
    decreases Remaining(fs, c), 0, |kids|
  {
    if kids != [] {
      var k := kids[0];
      ExtendChain(fs, c, k.id);
      Shrinks(fs, c, k.id);
      SiblingsTail(fs, c, kids);
      var node := TreeNode(k.id, k.doc, Forest(fs, order, c + [k.id]));
      var rest := Nodes(fs, order, c, kids[1..]);
      assert Nodes(fs, order, c, kids) == [node] + rest;
      ForestIsTree(fs, order, c + [k.id]);
      assert Parent(c + [k.id]) == Some(k.id);
      NodesIsTree(fs, order, c, kids[1..]);
      forall i | 0 <= i < |rest| ensures StrLe(k.doc.name, rest[i].folder.name) {
        assert rest[i].folder == kids[i + 1].doc;
      }
      TreeCons(fs, node, rest, Parent(c));
    }
  }

  /** The ids of a forest, each node before its children. */
  function Flatten(ts: seq<TreeNode>): seq<FolderId> {
    if ts == [] then [] else [ts[0].id] + Flatten(ts[0].children) + Flatten(ts[1..])
  }

  /** GET /api/folders/tree. */
  function GetFolderTree(s: Store): (r: seq<TreeNode>)
    ensures Tree(s.folders, r, None)
  {
    var order := FoldersByName(s, AnyParent);
    assert Listing(s.folders, order);
    ForestIsTree(s.folders, order, []);
    Forest(s.folders, order, [])
  }

  /** The folders `buildTree` lists below chain `c`: below the last folder
      on it, or, at the top level, every folder walking up reaches a
      top-level folder from. */
  ghost predicate Descends(fs: map<FolderId, Folder>, x: FolderId, c: seq<FolderId>) {
    if c == [] then Rooted(fs, x) else exists k :: k >= 1 && Up(fs, Some(x), k) == Some(c[|c| - 1])
  }

  /** Some kid of `kids` is `x` or one of its ancestors. */
  ghost predicate UnderSome(fs: map<FolderId, Folder>, x: FolderId, kids: seq<Entry<Folder>>) {
    exists i :: 0 <= i < |kids| && Below(fs, x, kids[i].id)
  }

  lemma UnderSomeSplit(fs: map<FolderId, Folder>, x: FolderId, kids: seq<Entry<Folder>>)
    requires kids != []
    ensures UnderSome(fs, x, kids) <==> Below(fs, x, kids[0].id) || UnderSome(fs, x, kids[1..])
  {
    if UnderSome(fs, x, kids[1..]) {
      var i :| 0 <= i < |kids[1..]| && Below(fs, x, kids[1..][i].id);
      assert kids[i + 1] == kids[1..][i];
    }
    if UnderSome(fs, x, kids) && !Below(fs, x, kids[0].id) {
      var i :| 0 <= i < |kids| && Below(fs, x, kids[i].id);
      assert kids[1..][i - 1] == kids[i];
    }
  }

  lemma FlattenCons(node: TreeNode, rest: seq<TreeNode>)
    ensures Flatten([node] + rest) == [node.id] + Flatten(node.children) + Flatten(rest)
  {
    assert ([node] + rest)[1..] == rest;
  }

  /** For a kid at depth `|c|`, the folders in its subtree are the kid and
      the folders below it, and the kid is not below itself. */
  lemma BelowSplit(fs: map<FolderId, Folder>, x: FolderId, kid: FolderId, c: seq<FolderId>)
    requires IsRoot(fs, Up(fs, Some(kid), |c|))
    ensures Below(fs, x, kid) <==> x == kid || Descends(fs, x, c + [kid])
    ensures !(x == kid && Descends(fs, x, c + [kid]))
  {
    var c' := c + [kid];
    assert c'[|c'| - 1] == kid;
    if Below(fs, x, kid) && x != kid {
      var j :| Up(fs, Some(x), j) == Some(kid);
      assert j >= 1;
    }
    if x == kid {
      assert Up(fs, Some(x), 0) == Some(kid);
    }
    if x == kid && Descends(fs, x, c') {
      var k :| k >= 1 && Up(fs, Some(kid), k) == Some(kid);
      UpAdd(fs, Some(kid), k, |c|);
      DepthUnique(fs, Some(kid), |c|, k + |c|);
    }
  }

  /** A folder below one of the kids `buildTree` maps over is listed below chain `c`. */
  lemma KidsOnlyDescendants(fs: map<FolderId, Folder>, order: seq<Entry<Folder>>, c: seq<FolderId>, x: FolderId)
    requires Listing(fs, order)
    requires UnderSome(fs, x, Kids(order, Parent(c)))
    ensures Descends(fs, x, c)
  {
    var kids := Kids(order, Parent(c));
    var i :| 0 <= i < |kids| && Below(fs, x, kids[i].id);
    var kid := kids[i].id;
    assert kids[i].doc.parentFolder == Parent(c);
    var j: nat :| Up(fs, Some(x), j) == Some(kid);
    ForestKids(fs, order, c);
    assert kid in fs && fs[kid].parentFolder == Parent(c);
    if c != [] {
      UpOneMore(fs, Some(x), j);
      assert Up(fs, Some(x), j + 1) == Some(c[|c| - 1]);
    } else {
      assert IsRoot(fs, Up(fs, Some(x), j));
    }
  }

  /** A folder listed below chain `c` is below one of the kids `buildTree` maps over. */
  lemma KidsAllDescendants(fs: map<FolderId, Folder>, order: seq<Entry<Folder>>, c: seq<FolderId>, x: FolderId)
    requires Listing(fs, order)
    requires Descends(fs, x, c)
    ensures UnderSome(fs, x, Kids(order, Parent(c)))
  {
    var kids := Kids(order, Parent(c));
    var n: nat;
    if c == [] {
      n :| IsRoot(fs, Up(fs, Some(x), n));
    } else {
      var k: nat :| k >= 1 && Up(fs, Some(x), k) == Some(c[|c| - 1]);
      UpAdd(fs, Some(x), k - 1, 1);
      assert Up(fs, Up(fs, Some(x), k - 1), 1) == Step(fs, Up(fs, Some(x), k - 1));
      n := k - 1;
    }
    var y := Up(fs, Some(x), n).value;
    assert y in fs && fs[y].parentFolder == Parent(c);
    assert Entry(y, fs[y]) in order;
    assert Entry(y, fs[y]) in kids;
    var i :| 0 <= i < |kids| && kids[i] == Entry(y, fs[y]);
    assert Below(fs, x, kids[i].id);
  }

  /** At most one kid is an ancestor of a folder, or the folder itself:
      kids all have the same depth, and their ids are distinct. */
  lemma OneKidAbove(fs: map<FolderId, Folder>, c: seq<FolderId>, kids: seq<Entry<Folder>>, x: FolderId)
    requires Chain(fs, c) && Siblings(fs, c, kids)
    requires kids != [] && Below(fs, x, kids[0].id)
    ensures !UnderSome(fs, x, kids[1..])
  {
    if UnderSome(fs, x, kids[1..]) {
      var i :| 0 <= i < |kids[1..]| && Below(fs, x, kids[1..][i].id);
      var other := kids[i + 1];
      assert kids[1..][i] == other;
      ExtendChain(fs, c, kids[0].id);
      ExtendChain(fs, c, other.id);
      var a: nat :| Up(fs, Some(x), a) == Some(kids[0].id);
      var b: nat :| Up(fs, Some(x), b) == Some(other.id);
      SameDepthSameAncestor(fs, x, kids[0].id, other.id, a, b, |c|);
    }
  }

  /** Every folder listed below chain `c` occurs exactly once in the forest
      built there, and no other folder occurs. */
  lemma {:induction false} ForestCount(fs: map<FolderId, Folder>, order: seq<Entry<Folder>>, c: seq<FolderId>, x: FolderId)
    requires Listing(fs, order) && Chain(fs, c)
    ensures multiset(Flatten(Forest(fs, order, c)))[x] == if Descends(fs, x, c) then 1 else 0
    decreases Remaining(fs, c), 1, 0
  {
    ForestKids(fs, order, c);
    NodesCount(fs, order, c, Kids(order, Parent(c)), x);
    if UnderSome(fs, x, Kids(order, Parent(c))) {
      KidsOnlyDescendants(fs, order, c, x);
    }
    if Descends(fs, x, c) {
      KidsAllDescendants(fs, order, c, x);
    }
  }

  lemma {:induction false} NodesCount(fs: map<FolderId, Folder>, order: seq<Entry<Folder>>, c: seq<FolderId>,
                                      kids: seq<Entry<Folder>>, x: FolderId)
    requires Listing(fs, order) && Chain(fs, c)
    requires Siblings(fs, c, kids)
    ensures multiset(Flatten(Nodes(fs, order, c, kids)))[x] == if UnderSome(fs, x, kids) then 1 else 0
    decreases Remaining(fs, c), 0, |kids|
  {
    if kids != [] {
      var k := kids[0];
      ExtendChain(fs, c, k.id);
      Shrinks(fs, c, k.id);
      SiblingsTail(fs, c, kids);
      var sub := Forest(fs, order, c + [k.id]);
      var node := TreeNode(k.id, k.doc, sub);
      var rest := Nodes(fs, order, c, kids[1..]);
      assert Nodes(fs, order, c, kids) == [node] + rest;
      FlattenCons(node, rest);
      var here := multiset([k.id])[x] + multiset(Flatten(sub))[x];
      assert multiset(Flatten(Nodes(fs, order, c, kids)))[x] == here + multiset(Flatten(rest))[x];
      ForestCount(fs, order, c + [k.id], x);
      NodesCount(fs, order, c, kids[1..], x);
      BelowSplit(fs, x, k.id, c);
      UnderSomeSplit(fs, x, kids);
      if Below(fs, x, k.id) {
        OneKidAbove(fs, c, kids, x);
        assert here == 1;
      } else {
        assert here == 0;
      }
    } else {
      assert !UnderSome(fs, x, kids);
    }
  }

  /** Every folder whose chain of parents reaches a top-level folder occurs
      exactly once in the tree; no other folder occurs at all. */
  lemma TreeCounts(s: Store, x: FolderId)
    ensures multiset(Flatten(GetFolderTree(s)))[x] == if Rooted(s.folders, x) then 1 else 0
    ensures x in Flatten(GetFolderTree(s)) <==> Rooted(s.folders, x)
  {
    var order := FoldersByName(s, AnyParent);
    assert Listing(s.folders, order);
    ForestCount(s.folders, order, [], x);
  }

  /** Walking up from a member of a set of folders each naming another
      member as parent never leaves the set. */
  lemma {:induction false} UpStaysIn(fs: map<FolderId, Folder>, trap: set<FolderId>, x: FolderId, n: nat)
    requires x in trap
    requires forall y :: y in trap ==> y in fs && fs[y].parentFolder.Some? && fs[y].parentFolder.value in trap
    ensures Up(fs, Some(x), n).Some? && Up(fs, Some(x), n).value in trap
    decreases n
  {
    if n > 0 {
      UpStaysIn(fs, trap, fs[x].parentFolder.value, n - 1);
    }
  }

  /** Folders on a cycle of parents (a folder its own parent, two folders
      each the other's parent, ...) never reach a top-level folder. */
  lemma TrappedNotRooted(fs: map<FolderId, Folder>, trap: set<FolderId>, x: FolderId)
    requires x in trap
    requires forall y :: y in trap ==> y in fs && fs[y].parentFolder.Some? && fs[y].parentFolder.value in trap
    ensures !Rooted(fs, x)
  {
    forall n: nat ensures !IsRoot(fs, Up(fs, Some(x), n)) {
      UpStaysIn(fs, trap, x, n);
    }
  }

  /** A folder that is its own parent never reaches a top-level folder. */
  lemma SelfNotRooted(fs: map<FolderId, Folder>, id: FolderId)
    requires id in fs && fs[id].parentFolder == Some(id)
    ensures !Rooted(fs, id)
  {
    TrappedNotRooted(fs, {id}, id);
  }

  /** Two folders each the other's parent never reach a top-level folder. */
  lemma PairNotRooted(fs: map<FolderId, Folder>, a: FolderId, b: FolderId)
    requires a in fs && b in fs
    requires fs[a].parentFolder == Some(b) && fs[b].parentFolder == Some(a)
    ensures !Rooted(fs, a) && !Rooted(fs, b)
  {
    TrappedNotRooted(fs, {a, b}, a);
    TrappedNotRooted(fs, {a, b}, b);
  }

  /** A folder naming a missing folder as parent never reaches a top-level folder. */
  lemma OrphanNotRooted(fs: map<FolderId, Folder>, x: FolderId)
    requires x in fs && fs[x].parentFolder.Some? && fs[x].parentFolder.value !in fs
    ensures !Rooted(fs, x)
  {
    forall n: nat ensures !IsRoot(fs, Up(fs, Some(x), n)) {
      if n >= 2 {
        assert Step(fs, Step(fs, Some(x))) == None;
        UpAdd(fs, Some(x), 2, n - 2);
        UpFromNone(fs, n - 2);
      } else if n == 1 {
        assert Up(fs, Some(x), 1) == fs[x].parentFolder;
      }
    }
  }

  /** A folder that never reaches a top-level folder is not in the tree. */
  lemma NotRootedNotInTree(s: Store, x: FolderId)
    requires !Rooted(s.folders, x)
    ensures x !in Flatten(GetFolderTree(s))
  {
    TreeCounts(s, x);
  }

  /** After a folder is made its own parent, which the update accepts, it
      is missing from the tree. */
  lemma SelfParentLeavesTree(s: Store, id: FolderId)
    requires id in s.folders && NamesSaved(s)
    ensures id !in Flatten(GetFolderTree(UpdateFolder(s, id, MoveTo(Some(id))).store))
  {
    var t := UpdateFolder(s, id, MoveTo(Some(id))).store;
    SelfParentAccepted(s, id);
    SelfNotRooted(t.folders, id);
    NotRootedNotInTree(t, id);
  }

  /** After two folders are made each other's parent, which the update
      accepts, both are missing from the tree. */
  lemma CycleLeavesTree(s: Store, a: FolderId, b: FolderId)
    requires a in s.folders && b in s.folders && a != b
    requires s.folders[b].parentFolder == Some(a)
    requires NamesSaved(s)
    ensures var t := UpdateFolder(s, a, MoveTo(Some(b))).store;
            a !in Flatten(GetFolderTree(t)) && b !in Flatten(GetFolderTree(t))
  {
    var t := UpdateFolder(s, a, MoveTo(Some(b))).store;
    CycleAccepted(s, a, b);
    PairNotRooted(t.folders, a, b);
    NotRootedNotInTree(t, a);
    NotRootedNotInTree(t, b);
  }
}
