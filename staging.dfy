/**
 * The path-edit staging buffer of the map canvas: for the highlighted line,
 * a copy of every branch's vertex list that the edit operations change, and
 * that a commit writes back to the dataset.
 *
 * A staged vertex is a fresh Double[] in the editor and List.remove finds it
 * by identity, so here every staged vertex carries an `id`; the canvas hands
 * out ids from a counter and no id occurs twice in the buffer.
 */
module Staging {
  import opened Wrappers
  import opened Geometry
  import opened Transit

  datatype SVertex = SVertex(id: nat, pos: Point)

  /** One entry of the staging map: a branch name and its copied vertex list. */
  datatype Staged = Staged(name: string, verts: seq<SVertex>)

  /** The coordinates of a staged list, as written back to a branch on commit. */
  function Positions(vs: seq<SVertex>): (ps: seq<Point>)
    ensures |ps| == |vs|
    ensures forall j :: 0 <= j < |vs| ==> ps[j] == vs[j].pos
  {
    seq(|vs|, j requires 0 <= j < |vs| => vs[j].pos)
  }

  predicate DistinctNames(st: seq<Staged>) {
    forall i, j :: 0 <= i < j < |st| ==> st[i].name != st[j].name
  }

  /** Every id in the buffer lies in [lo, hi). */
  predicate IdsIn(st: seq<Staged>, lo: nat, hi: nat) {
    forall i, j :: 0 <= i < |st| && 0 <= j < |st[i].verts| ==> lo <= IdAt(st, i, j) < hi
  }

  /** No two positions of the buffer hold the same vertex. */
  predicate UniqueIds(st: seq<Staged>) {
    forall i, j, k, l ::
      0 <= i < |st| && 0 <= j < |st[i].verts| && 0 <= k < |st| && 0 <= l < |st[k].verts|
      && IdAt(st, i, j) == IdAt(st, k, l)
      ==> i == k && j == l
  }

  /** The id of vertex j of list i (named, so that the invariants above fire only where ids are asked for). */
  function IdAt(st: seq<Staged>, i: nat, j: nat): nat
    requires i < |st| && j < |st[i].verts|
  {
    st[i].verts[j].id
  }

  /** The invariant the canvas keeps for its buffer, with `next` the first unused id. */
  predicate Good(st: seq<Staged>, next: nat) {
    DistinctNames(st) && IdsIn(st, 0, next) && UniqueIds(st)
  }

  /** The id is held by some vertex of the buffer. */
  predicate Holds(st: seq<Staged>, id: nat) {
    exists i, j :: 0 <= i < |st| && 0 <= j < |st[i].verts| && st[i].verts[j].id == id
  }

  // ---------------------------------------------------------------- copying

  function VertexCount(bs: seq<Branch>): nat {
    if |bs| == 0 then 0 else VertexCount(bs[..|bs| - 1]) + |bs[|bs| - 1].vertices|
  }

  /** The copy of one branch whose vertices get the ids next, next + 1, ... */
  function StageBranch(b: Branch, next: nat): (s: Staged)
    ensures s.name == b.name && Positions(s.verts) == b.vertices
    ensures |s.verts| == |b.vertices|
    ensures forall j :: 0 <= j < |s.verts| ==> s.verts[j].id == next + j
  {
    Staged(b.name, seq(|b.vertices|, j requires 0 <= j < |b.vertices| => SVertex(next + j, b.vertices[j])))
  }

  /**
   * What highlightLine and resetCurrentPath put in the cleared staging map:
   * for each branch in order, a fresh copy of its vertex list.
   */
  function StageAll(bs: seq<Branch>, next: nat): seq<Staged> {
    if |bs| == 0 then []
    else
      var init := bs[..|bs| - 1];
      StageAll(init, next) + [StageBranch(bs[|bs| - 1], next + VertexCount(init))]
  }

  /** The staged copy and the persisted branches agree entry by entry. */
  predicate CopyOf(st: seq<Staged>, bs: seq<Branch>) {
    |st| == |bs| && forall i :: 0 <= i < |bs| ==> st[i].name == bs[i].name && Positions(st[i].verts) == bs[i].vertices
  }

  /**
   * The staged copy has the branches' names and coordinates in order, its
   * vertices are new (ids from `next` on, none used twice) and, when the
   * branch names are distinct, so are the staged names.
   */
  lemma {:induction false} StageAllIsFreshCopy(bs: seq<Branch>, next: nat)
    ensures CopyOf(StageAll(bs, next), bs)
    ensures IdsIn(StageAll(bs, next), next, next + VertexCount(bs))
    ensures UniqueIds(StageAll(bs, next))
    ensures DistinctBranchNames(bs) ==> DistinctNames(StageAll(bs, next))
  {
    if |bs| > 0 {
      var init := bs[..|bs| - 1];
      var mid := next + VertexCount(init);
      var last := StageBranch(bs[|bs| - 1], mid);
      var st := StageAll(init, next);
      StageAllIsFreshCopy(init, next);
      assert StageAll(bs, next) == st + [last];
      IdsInAppend(st, last, next, mid, next + VertexCount(bs));
      AppendUnique(st, last, next, mid);
      if DistinctBranchNames(bs) {
        assert DistinctBranchNames(init);
      }
    }
  }

  /** A fresh copy of branches with distinct names, numbered from `next`, keeps the buffer invariant. */
  lemma StageAllGood(bs: seq<Branch>, next: nat)
    requires DistinctBranchNames(bs)
    ensures Good(StageAll(bs, next), next + VertexCount(bs))
  {
    StageAllIsFreshCopy(bs, next);
  }

  /** Appending a list whose ids lie in [mid, hi) to a buffer with ids in [lo, mid). */
  lemma IdsInAppend(st: seq<Staged>, s: Staged, lo: nat, mid: nat, hi: nat)
    requires IdsIn(st, lo, mid) && lo <= mid <= hi
    requires forall j :: 0 <= j < |s.verts| ==> mid <= s.verts[j].id < hi
    ensures IdsIn(st + [s], lo, hi)
  {
    var st' := st + [s];
    forall i, j | 0 <= i < |st'| && 0 <= j < |st'[i].verts|
      ensures lo <= IdAt(st', i, j) < hi
    {
      if i < |st| {
        assert IdAt(st', i, j) == IdAt(st, i, j);
      }
    }
  }

  /** Appending a list whose ids are distinct and all at least `mid` keeps ids unique. */
  lemma AppendUnique(st: seq<Staged>, s: Staged, lo: nat, mid: nat)
    requires UniqueIds(st) && IdsIn(st, lo, mid)
    requires forall j :: 0 <= j < |s.verts| ==> s.verts[j].id == mid + j
    ensures UniqueIds(st + [s])
  {
    var st' := st + [s];
    forall i, j, k, l |
      0 <= i < |st'| && 0 <= j < |st'[i].verts| && 0 <= k < |st'| && 0 <= l < |st'[k].verts| &&
      IdAt(st', i, j) == IdAt(st', k, l)
      ensures i == k && j == l
    {
      if i < |st| {
        assert IdAt(st', i, j) == IdAt(st, i, j);
      }
      if k < |st| {
        assert IdAt(st', k, l) == IdAt(st, k, l);
      }
    }
  }

  // ---------------------------------------------------------------- commit

  /** The index of the staged list called `name`. */
  function StagedIndex(st: seq<Staged>, name: string): (r: Option<nat>)
    ensures r.None? <==> forall i :: 0 <= i < |st| ==> st[i].name != name
    ensures r.Some? ==> r.value < |st| && st[r.value].name == name
                        && forall i :: 0 <= i < r.value ==> st[i].name != name
  {
    var flags := seq(|st|, i requires 0 <= i < |st| => st[i].name == name);
    assert forall i :: 0 <= i < |st| ==> flags[i] == (st[i].name == name);
    FirstTrue(flags)
  }

  /** One step of commitPathChanges: the persisted branch of that name, if any, takes the staged coordinates. */
  function ReplaceVerts(bs: seq<Branch>, s: Staged): seq<Branch> {
    match BranchIndex(bs, s.name)
    case None => bs
    case Some(j) => bs[j := bs[j].(vertices := Positions(s.verts))]
  }

  /** commitPathChanges on the branches of the highlighted line: every staged entry in turn. */
  function CommitAll(bs: seq<Branch>, st: seq<Staged>): seq<Branch> {
    if |st| == 0 then bs else ReplaceVerts(CommitAll(bs, st[..|st| - 1]), st[|st| - 1])
  }

  /** The vertices a branch has after the commit: the staged ones if it has a staged counterpart. */
  function Committed(b: Branch, st: seq<Staged>): (r: Branch)
    ensures r.name == b.name && r.stations == b.stations
  {
    match StagedIndex(st, b.name)
    case None => b
    case Some(k) => b.(vertices := Positions(st[k].verts))
  }

  /**
   * commitPathChanges replaces the vertex list of every persisted branch
   * that has a staged counterpart by the staged list, leaves every other
   * branch as it was, keeps names, station lists and order, and ignores
   * staged names without a persisted branch.
   */
  lemma CommitAllSpec(bs: seq<Branch>, st: seq<Staged>)
    requires DistinctBranchNames(bs) && DistinctNames(st)
    ensures |CommitAll(bs, st)| == |bs|
    ensures forall j :: 0 <= j < |bs| ==>
      CommitAll(bs, st)[j] == Committed(bs[j], st)
  {
    CommitAllShape(bs, st);
    forall j | 0 <= j < |bs|
      ensures CommitAll(bs, st)[j] == Committed(bs[j], st)
    {
      CommitAllAt(bs, st, j);
    }
  }

  /** Committing keeps the number of branches and their names. */
  lemma {:induction false} CommitAllShape(bs: seq<Branch>, st: seq<Staged>)
    ensures |CommitAll(bs, st)| == |bs|
    ensures forall j :: 0 <= j < |bs| ==> CommitAll(bs, st)[j].name == bs[j].name
  {
    if |st| > 0 {
      CommitAllShape(bs, st[..|st| - 1]);
    }
  }

  /** Branch j after the commit. */
  lemma {:induction false} CommitAllAt(bs: seq<Branch>, st: seq<Staged>, j: nat)
    requires DistinctBranchNames(bs) && DistinctNames(st) && j < |bs|
    ensures j < |CommitAll(bs, st)| && CommitAll(bs, st)[j] == Committed(bs[j], st)
  {
    CommitAllShape(bs, st);
    if |st| > 0 {
      var init := st[..|st| - 1];
      var s := st[|st| - 1];
      assert DistinctNames(init);
      CommitAllAt(bs, init, j);
      var mid := CommitAll(bs, init);
      CommitAllShape(bs, init);
      assert DistinctBranchNames(mid);
      ReplaceVertsAt(mid, s);
      assert st == init + [s];
      StagedIndexSnoc(init, s, bs[j].name);
    }
  }

  /** One commit step touches only the branch with the staged entry's name. */
  lemma ReplaceVertsAt(bs: seq<Branch>, s: Staged)
    requires DistinctBranchNames(bs)
    ensures |ReplaceVerts(bs, s)| == |bs|
    ensures forall j :: 0 <= j < |bs| ==>
      ReplaceVerts(bs, s)[j] == if bs[j].name == s.name then bs[j].(vertices := Positions(s.verts)) else bs[j]
  {
  }

  /** The index of a name in init + [s]: its index in init, else the new last entry when it is s's name. */
  lemma StagedIndexSnoc(init: seq<Staged>, s: Staged, name: string)
    requires DistinctNames(init + [s])
    ensures StagedIndex(init + [s], name) ==
      if s.name == name then Some(|init|) else StagedIndex(init, name)
  {
    var st := init + [s];
    assert forall i :: 0 <= i < |init| ==> st[i] == init[i];
    var r := StagedIndex(st, name);
    if s.name == name {
      assert st[|init|].name == name;
    } else if r.Some? {
      assert r.value < |init|;
    }
  }

  /** The branch search only looks at names. */
  lemma SameNamesSameBranchIndex(bs: seq<Branch>, bs': seq<Branch>, name: string)
    requires |bs| == |bs'| && forall i :: 0 <= i < |bs| ==> bs[i].name == bs'[i].name
    ensures BranchIndex(bs, name) == BranchIndex(bs', name)
  {
    var r, r' := BranchIndex(bs, name), BranchIndex(bs', name);
    if r.Some? && r'.Some? {
      assert !(r.value < r'.value) && !(r'.value < r.value);
    }
  }

  /**
   * commitPathChanges on a dataset: the highlighted line takes the committed
   * branches; without such a line the dataset stays as it is.
   */
  function CommitLine(d: Dataset, key: LineKey, st: seq<Staged>): Dataset {
    match FindLine(d, key)
    case None => d
    case Some(l) => WithLine(d, key, l.(branches := CommitAll(l.branches, st)))
  }

  /**
   * Committing keeps the dataset well formed, changes no other line, and
   * leaves the line at `key` with its branches committed (CommitAllSpec says how).
   */
  lemma CommitLineSpec(d: Dataset, key: LineKey, st: seq<Staged>, k2: LineKey)
    requires WellFormed(d) && DistinctNames(st)
    ensures WellFormed(CommitLine(d, key, st))
    ensures FindLine(d, key).Some? ==>
      var l := FindLine(d, key).value;
      FindLine(CommitLine(d, key, st), key) == Some(l.(branches := CommitAll(l.branches, st)))
    ensures k2 != key ==> FindLine(CommitLine(d, key, st), k2) == FindLine(d, k2)
    ensures CommitLine(d, key, st).stations == d.stations
  {
    var f := FindLine(d, key);
    if f.Some? {
      var l := f.value;
      FindLineWellFormed(d, key);
      CommitAllSpec(l.branches, st);
      var bs := CommitAll(l.branches, st);
      assert DistinctBranchNames(bs) by {
        assert forall j :: 0 <= j < |bs| ==> bs[j].name == l.branches[j].name;
      }
      WithLineWellFormed(d, key, l.(branches := bs));
      WithLineFound(d, key, l.(branches := bs), k2);
    }
  }

  /** Committing a buffer that is still an unedited copy of the branches changes nothing. */
  lemma CommitCopyIsIdentity(bs: seq<Branch>, st: seq<Staged>)
    requires DistinctBranchNames(bs) && DistinctNames(st) && CopyOf(st, bs)
    ensures CommitAll(bs, st) == bs
  {
    CommitAllSpec(bs, st);
    forall j | 0 <= j < |bs|
      ensures CommitAll(bs, st)[j] == bs[j]
    {
      assert st[j].name == bs[j].name;
      assert StagedIndex(st, bs[j].name) == Some(j);
    }
  }

  // ----------------------------------------------------------------- delete

  /** The index of the first vertex of the list with this id (the identity search of List.remove). */
  function FirstWithId(vs: seq<SVertex>, id: nat): (r: Option<nat>)
    ensures r.None? <==> forall j :: 0 <= j < |vs| ==> vs[j].id != id
    ensures r.Some? ==> r.value < |vs| && vs[r.value].id == id
                        && forall j :: 0 <= j < r.value ==> vs[j].id != id
  {
    var flags := seq(|vs|, j requires 0 <= j < |vs| => vs[j].id == id);
    assert forall j :: 0 <= j < |vs| ==> flags[j] == (vs[j].id == id);
    FirstTrue(flags)
  }

  /** List.remove(Object) on a staged list: drops the first vertex with this id, if any. */
  function RemoveFirst(vs: seq<SVertex>, id: nat): seq<SVertex> {
    match FirstWithId(vs, id)
    case None => vs
    case Some(k) => vs[..k] + vs[k + 1..]
  }

  /** deleteSelectedVertex: the vertex goes from every staged list longer than 2; shorter lists stay. */
  function DeleteFromLong(st: seq<Staged>, id: nat): seq<Staged> {
    seq(|st|, i requires 0 <= i < |st| =>
      if |st[i].verts| > 2 then st[i].(verts := RemoveFirst(st[i].verts, id)) else st[i])
  }

  /**
   * Deleting keeps names and the number of lists, leaves every list of at
   * most 2 vertices as it was, takes at most one vertex from a longer list
   * (so no list drops below 2), and afterwards no list longer than 2 before
   * the delete holds the id. A list without the id stays as it was; a
   * longer list holding it loses exactly that vertex, and the others keep
   * their order.
   */
  lemma DeleteFromLongSpec(st: seq<Staged>, id: nat)
    requires UniqueIds(st)
    ensures |DeleteFromLong(st, id)| == |st|
    ensures forall i :: 0 <= i < |st| ==> DeleteFromLong(st, id)[i].name == st[i].name
    ensures forall i :: 0 <= i < |st| && |st[i].verts| <= 2 ==> DeleteFromLong(st, id)[i] == st[i]
    ensures forall i :: 0 <= i < |st| && |st[i].verts| > 2 ==>
              |st[i].verts| - 1 <= |DeleteFromLong(st, id)[i].verts| <= |st[i].verts|
              && |DeleteFromLong(st, id)[i].verts| >= 2
    ensures forall i, j :: 0 <= i < |st| && |st[i].verts| > 2 && 0 <= j < |DeleteFromLong(st, id)[i].verts| ==>
              DeleteFromLong(st, id)[i].verts[j].id != id
    ensures forall i :: 0 <= i < |st| && FirstWithId(st[i].verts, id).None? ==> DeleteFromLong(st, id)[i] == st[i]
    ensures forall i :: 0 <= i < |st| && |st[i].verts| > 2 && FirstWithId(st[i].verts, id).Some? ==>
              var vs, k := st[i].verts, FirstWithId(st[i].verts, id).value;
              var r := DeleteFromLong(st, id)[i].verts;
              |r| == |vs| - 1 && forall j :: 0 <= j < |r| ==> r[j] == vs[if j < k then j else j + 1]
  {
    forall i | 0 <= i < |st| && |st[i].verts| > 2 && FirstWithId(st[i].verts, id).Some?
      ensures var vs, k := st[i].verts, FirstWithId(st[i].verts, id).value;
              var r := DeleteFromLong(st, id)[i].verts;
              |r| == |vs| - 1 && forall j :: 0 <= j < |r| ==> r[j] == vs[if j < k then j else j + 1]
    {
      var vs, k := st[i].verts, FirstWithId(st[i].verts, id).value;
      var r := DeleteFromLong(st, id)[i].verts;
      assert r == vs[..k] + vs[k + 1..];
      forall j | 0 <= j < |r| ensures r[j] == vs[if j < k then j else j + 1] {
        if j < k { assert r[j] == vs[..k][j]; } else { assert r[j] == vs[k + 1..][j - k]; }
      }
    }
    forall i | 0 <= i < |st| && |st[i].verts| > 2
      ensures |st[i].verts| - 1 <= |RemoveFirst(st[i].verts, id)| <= |st[i].verts|
      ensures forall j :: 0 <= j < |RemoveFirst(st[i].verts, id)| ==> RemoveFirst(st[i].verts, id)[j].id != id
    {
      RemoveFirstUnique(st, i, id);
    }
  }

  /** In a list where the id occurs at most once, RemoveFirst removes every occurrence. */
  lemma RemoveFirstUnique(st: seq<Staged>, i: nat, id: nat)
    requires UniqueIds(st) && i < |st|
    ensures |st[i].verts| - 1 <= |RemoveFirst(st[i].verts, id)| <= |st[i].verts|
    ensures forall j :: 0 <= j < |RemoveFirst(st[i].verts, id)| ==> RemoveFirst(st[i].verts, id)[j].id != id
  {
    var vs := st[i].verts;
    var f := FirstWithId(vs, id);
    if f.Some? {
      var k := f.value;
      var r := RemoveFirst(vs, id);
      forall j | 0 <= j < |r| ensures r[j].id != id {
        if j < k {
          assert r[j] == vs[j];
        } else {
          assert r[j] == vs[j + 1] && IdAt(st, i, j + 1) == vs[j + 1].id && IdAt(st, i, k) == id;
        }
      }
    }
  }


  /** Deleting keeps the buffer invariant. */
  lemma DeleteFromLongGood(st: seq<Staged>, id: nat, next: nat)
    requires Good(st, next)
    ensures Good(DeleteFromLong(st, id), next)
  {
    var st' := DeleteFromLong(st, id);
    forall i, j | 0 <= i < |st| && 0 <= j < |st'[i].verts|
      ensures Source(st, id, i, j) < |st[i].verts| && IdAt(st', i, j) == IdAt(st, i, Source(st, id, i, j))
    {
    }
    assert DistinctNames(st');
    forall i, j, k, l |
      0 <= i < |st'| && 0 <= j < |st'[i].verts| && 0 <= k < |st'| && 0 <= l < |st'[k].verts| &&
      IdAt(st', i, j) == IdAt(st', k, l)
      ensures i == k && j == l
    {
      assert IdAt(st, i, Source(st, id, i, j)) == IdAt(st, k, Source(st, id, k, l));
    }
  }

  /** Where entry j of list i after a delete was before it. */
  function Source(st: seq<Staged>, id: nat, i: nat, j: nat): nat
    requires i < |st|
  {
    var f := FirstWithId(st[i].verts, id);
    if |st[i].verts| > 2 && f.Some? && j >= f.value then j + 1 else j
  }


  // ------------------------------------------------------------------- move

  /** updateSelectedVertexPosition: the vertex with this id gets the new coordinates. */
  function MoveVertex(st: seq<Staged>, id: nat, p: Point): seq<Staged> {
    seq(|st|, i requires 0 <= i < |st| =>
      st[i].(verts := seq(|st[i].verts|, j requires 0 <= j < |st[i].verts| =>
        if st[i].verts[j].id == id then SVertex(id, p) else st[i].verts[j])))
  }

  /**
   * Moving a vertex changes the coordinates of that vertex only: names,
   * list lengths, every id and every other vertex stay, and the buffer
   * invariant is kept.
   */
  lemma MoveVertexSpec(st: seq<Staged>, id: nat, p: Point, next: nat)
    requires Good(st, next)
    ensures |MoveVertex(st, id, p)| == |st|
    ensures forall i :: 0 <= i < |st| ==>
      MoveVertex(st, id, p)[i].name == st[i].name && |MoveVertex(st, id, p)[i].verts| == |st[i].verts|
    ensures forall i, j :: 0 <= i < |st| && 0 <= j < |st[i].verts| ==>
      MoveVertex(st, id, p)[i].verts[j].id == st[i].verts[j].id &&
      MoveVertex(st, id, p)[i].verts[j].pos == (if st[i].verts[j].id == id then p else st[i].verts[j].pos)
    ensures Good(MoveVertex(st, id, p), next)
  {
    var st' := MoveVertex(st, id, p);
    assert forall i, j :: 0 <= i < |st| && 0 <= j < |st[i].verts| ==> IdAt(st', i, j) == IdAt(st, i, j);
    assert DistinctNames(st');
  }

  // ----------------------------------------------------------------- insert

  /** List.add(i, v): v goes in at index i, every other element keeps its order. */
  function InsertAt(vs: seq<SVertex>, i: nat, v: SVertex): (r: seq<SVertex>)
    requires i <= |vs|
    ensures |r| == |vs| + 1 && r[i] == v
    ensures r[..i] == vs[..i] && r[i + 1..] == vs[i..]
  {
    vs[..i] + [v] + vs[i..]
  }

  /** Inserting a vertex with an unused id into one list keeps the buffer invariant with the next id. */
  lemma InsertGood(st: seq<Staged>, k: nat, i: nat, p: Point, next: nat)
    requires Good(st, next) && k < |st| && i <= |st[k].verts|
    ensures Good(Inserted(st, k, i, SVertex(next, p)), next + 1)
  {
    var v := SVertex(next, p);
    var st' := Inserted(st, k, i, v);
    assert DistinctNames(st');
    forall a, b | 0 <= a < |st'| && 0 <= b < |st'[a].verts|
      ensures IdAt(st', a, b) < next + 1
    {
      InsertedEntry(st, k, i, v, a, b);
    }
    forall a, b, c, e |
      0 <= a < |st'| && 0 <= b < |st'[a].verts| && 0 <= c < |st'| && 0 <= e < |st'[c].verts| &&
      IdAt(st', a, b) == IdAt(st', c, e)
      ensures a == c && b == e
    {
      InsertedEntry(st, k, i, v, a, b);
      InsertedEntry(st, k, i, v, c, e);
    }
  }

  /** The buffer after inserting v into list k at index i. */
  function Inserted(st: seq<Staged>, k: nat, i: nat, v: SVertex): seq<Staged>
    requires k < |st| && i <= |st[k].verts|
  {
    st[k := st[k].(verts := InsertAt(st[k].verts, i, v))]
  }

  /** Inserting into list k changes list k alone, and keeps its name and its other vertices in order. */
  lemma InsertedShape(st: seq<Staged>, k: nat, i: nat, v: SVertex)
    requires k < |st| && i <= |st[k].verts|
    ensures var r := Inserted(st, k, i, v);
      && |r| == |st|
      && (forall a :: 0 <= a < |st| && a != k ==> r[a] == st[a])
      && r[k].name == st[k].name
      && r[k].verts == st[k].verts[..i] + [v] + st[k].verts[i..]
  {
  }

  /** Each entry after an insert is the new vertex or the entry it was before. */
  lemma InsertedEntry(st: seq<Staged>, k: nat, i: nat, v: SVertex, a: nat, b: nat)
    requires k < |st| && i <= |st[k].verts|
    requires a < |st| && b < |Inserted(st, k, i, v)[a].verts|
    ensures a == k && b == i ==> Inserted(st, k, i, v)[a].verts[b] == v && IdAt(Inserted(st, k, i, v), a, b) == v.id
    ensures !(a == k && b == i) ==>
      var b' := if a == k && b > i then b - 1 else b;
      b' < |st[a].verts| && Inserted(st, k, i, v)[a].verts[b] == st[a].verts[b']
      && IdAt(Inserted(st, k, i, v), a, b) == IdAt(st, a, b')
  {
    if a == k && b != i {
      var vs := st[k].verts;
      assert Inserted(st, k, i, v)[a].verts == vs[..i] + [v] + vs[i..];
    }
  }
}
