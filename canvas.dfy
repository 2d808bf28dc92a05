/**
 * The map canvas: its viewport, what is highlighted, and the path-edit
 * staging buffer with the edits the mouse and the side panel make to it.
 *
 * The dataset the canvas shows is the one the editor edits; here it is the
 * field `data`, held by value.
 */
module Canvas {
  import opened Wrappers
  import opened Geometry
  import opened Transit
  import opened Staging
  import opened Snap
  import opened Picker

  class MapPanel {
    var data: Option<Dataset>
    var zoom: real
    var offX: real
    var offZ: real
    /**
     * The highlighted station: the dataset it belongs to (its generation,
     * see dataGeneration) and its id. The code holds the station object, so
     * a highlight made before setData installs another dataset matches no
     * station of the new one.
     */
    var highlightedStation: Option<(nat, int)>
    /** How many datasets setData has installed; the dataset shown is generation dataGeneration. */
    var dataGeneration: nat
    var highlightedLine: Option<LineKey>
    var pathEditing: bool
    var orthogonal: bool
    /** The vertex being dragged; no handler ever sets it, so the snap branch of a drag is not reached. */
    var draggedVertex: Option<nat>
    var selectedVertex: Option<nat>
    /** The staging map, branch by branch in the order of the highlighted line's branches. */
    var staging: seq<Staged>
    /** The first vertex id not yet handed out: every staged vertex has an id below it. */
    var nextId: nat
    /** The last mouse position the pan moves from; None before the first press. */
    var lastPoint: Option<(int, int)>

    ghost predicate Valid()
      reads this
    {
      && zoom > 0.0
      && Good(staging, nextId)
      && (data.Some? ==> WellFormed(data.value))
    }

    /** The viewport for a canvas of the given size: its centre is at (w / 2, h / 2). */
    function ViewFor(w: nat, h: nat): View
      reads this
    {
      View(offX, offZ, zoom, w / 2, h / 2)
    }

    constructor ()
      ensures Valid()
      ensures data == None && zoom == 0.05 && offX == 0.0 && offZ == 0.0
      ensures highlightedStation == None && highlightedLine == None
      ensures !pathEditing && orthogonal && draggedVertex == None && selectedVertex == None
      ensures staging == [] && lastPoint == None && dataGeneration == 0
    {
      data := None;
      dataGeneration := 0;
      zoom := 0.05;
      offX := 0.0;
      offZ := 0.0;
      highlightedStation := None;
      highlightedLine := None;
      pathEditing := false;
      orthogonal := true;
      draggedVertex := None;
      selectedVertex := None;
      staging := [];
      nextId := 0;
      lastPoint := None;
    }

    /** setData: show a dataset, centred on its first station if it has one. */
    method SetData(d: Dataset)
      requires Valid() && WellFormed(d)
      modifies this
      ensures Valid()
      ensures data == Some(d)
      ensures |d.stations| > 0 ==> offX == d.stations[0].x && offZ == d.stations[0].z
      ensures |d.stations| == 0 ==> offX == old(offX) && offZ == old(offZ)
      ensures zoom == old(zoom) && highlightedStation == old(highlightedStation) && highlightedLine == old(highlightedLine)
      ensures pathEditing == old(pathEditing) && orthogonal == old(orthogonal)
      ensures draggedVertex == old(draggedVertex) && selectedVertex == old(selectedVertex)
      ensures staging == old(staging) && nextId == old(nextId) && lastPoint == old(lastPoint)
      ensures dataGeneration == old(dataGeneration) + 1
    {
      data := Some(d);
      dataGeneration := dataGeneration + 1;
      if |d.stations| > 0 {
        offX := d.stations[0].x;
        offZ := d.stations[0].z;
      }
    }

    /** highlightStation: highlight station i and drop the line highlight; centre on it if asked. */
    method HighlightStation(i: nat, pan: bool)
      requires Valid() && data.Some? && i < |data.value.stations|
      modifies this
      ensures Valid()
      ensures highlightedStation == Some((old(dataGeneration), old(data).value.stations[i].id)) && highlightedLine == None
      ensures dataGeneration == old(dataGeneration)
      ensures pan ==> offX == old(data).value.stations[i].x && offZ == old(data).value.stations[i].z
      ensures !pan ==> offX == old(offX) && offZ == old(offZ)
      ensures data == old(data) && zoom == old(zoom)
      ensures pathEditing == old(pathEditing) && orthogonal == old(orthogonal)
      ensures draggedVertex == old(draggedVertex) && selectedVertex == old(selectedVertex)
      ensures staging == old(staging) && nextId == old(nextId) && lastPoint == old(lastPoint)
    {
      highlightedStation := Some((dataGeneration, data.value.stations[i].id));
      highlightedLine := None;
      if pan {
        offX := data.value.stations[i].x;
        offZ := data.value.stations[i].z;
      }
    }

    /**
     * highlightLine: highlight the line, drop the station highlight, and
     * replace the staging buffer by fresh copies of the line's branches;
     * centre on the first staged vertex if asked. When there is no data or
     * no such line, the lookup fails after the buffer has been emptied.
     */
    method HighlightLine(key: LineKey, pan: bool)
      requires Valid()
      modifies this`highlightedLine, this`highlightedStation, this`staging, this`nextId, this`offX, this`offZ
      ensures Valid()
      ensures highlightedLine == Some(key) && highlightedStation == None
      ensures data.None? || FindLine(data.value, key).None? ==>
        staging == [] && nextId == old(nextId) && offX == old(offX) && offZ == old(offZ)
      ensures data.Some? && FindLine(data.value, key).Some? ==>
        var bs := FindLine(data.value, key).value.branches;
        && staging == StageAll(bs, old(nextId))
        && nextId == old(nextId) + VertexCount(bs)
        && (pan && |staging| > 0 && |staging[0].verts| > 0 ==>
              offX == staging[0].verts[0].pos.x && offZ == staging[0].verts[0].pos.z)
        && (!(pan && |staging| > 0 && |staging[0].verts| > 0) ==> offX == old(offX) && offZ == old(offZ))
    {
      highlightedLine := Some(key);
      highlightedStation := None;
      staging, nextId := StageLine(data, key, nextId);
      if pan && |staging| > 0 && |staging[0].verts| > 0 {
        offX := staging[0].verts[0].pos.x;
        offZ := staging[0].verts[0].pos.z;
      }
    }

    /**
     * commitPathChanges: write every staged list back to the branch of the
     * highlighted line that has its name. Nothing happens without a
     * highlighted line, and when the line cannot be found.
     */
    method CommitPathChanges()
      requires Valid()
      modifies this`data
      ensures Valid()
      ensures highlightedLine.None? ==> data == old(data)
      ensures highlightedLine.Some? && old(data).Some? ==>
        data == Some(CommitLine(old(data).value, highlightedLine.value, staging))
      ensures old(data).None? ==> data == None
    {
      if highlightedLine.None? || data.None? {
        return;
      }
      var key := highlightedLine.value;
      var found := FindLine(data.value, key);
      if found.None? {
        return;
      }
      var l := found.value;
      var bs := CommitBranches(l.branches, staging);
      CommitLineSpec(data.value, key, staging, key);
      data := Some(WithLine(data.value, key, l.(branches := bs)));
    }

    /** clearHighlight: no highlight, an empty buffer, no selected vertex, path editing off. */
    method ClearHighlight()
      requires Valid()
      modifies this
      ensures Valid()
      ensures highlightedStation == None && highlightedLine == None
      ensures staging == [] && selectedVertex == None && !pathEditing
      ensures data == old(data) && zoom == old(zoom) && offX == old(offX) && offZ == old(offZ)
      ensures orthogonal == old(orthogonal) && draggedVertex == old(draggedVertex)
      ensures nextId == old(nextId) && lastPoint == old(lastPoint) && dataGeneration == old(dataGeneration)
    {
      highlightedStation := None;
      highlightedLine := None;
      staging := [];
      selectedVertex := None;
      pathEditing := false;
    }

    method SetPathEditing(b: bool)
      requires Valid()
      modifies this`pathEditing
      ensures Valid() && pathEditing == b
    {
      pathEditing := b;
    }

    /** updateSelectedVertexPosition: the selected vertex, wherever it is staged, gets these coordinates. */
    method UpdateSelectedVertexPosition(x: real, z: real)
      requires Valid()
      modifies this`staging
      ensures Valid()
      ensures selectedVertex.None? ==> staging == old(staging)
      ensures selectedVertex.Some? ==> staging == MoveVertex(old(staging), selectedVertex.value, Point(x, z))
    {
      if selectedVertex.Some? {
        MoveVertexSpec(staging, selectedVertex.value, Point(x, z), nextId);
        staging := MoveVertex(staging, selectedVertex.value, Point(x, z));
      }
    }

    /**
     * resetCurrentPath: after the user confirms, discard the staged edits
     * and copy the highlighted line's branches afresh. Nothing happens
     * without a highlighted line, without confirmation, without data, or
     * when the key's category is missing (the lookup fails before the buffer
     * is cleared). When the category exists but the line does not, the
     * buffer is cleared before the copy fails, so it is left empty.
     */
    method ResetCurrentPath(confirmed: bool)
      requires Valid()
      modifies this`staging, this`nextId
      ensures Valid()
      ensures highlightedLine.None? || !confirmed || data.None?
              || CategoryIndex(data.value.categories, highlightedLine.value.category).None? ==>
        staging == old(staging) && nextId == old(nextId)
      ensures highlightedLine.Some? && confirmed && data.Some?
              && CategoryIndex(data.value.categories, highlightedLine.value.category).Some?
              && FindLine(data.value, highlightedLine.value).None? ==>
        staging == [] && nextId == old(nextId)
      ensures highlightedLine.Some? && confirmed && data.Some? && FindLine(data.value, highlightedLine.value).Some? ==>
        var bs := FindLine(data.value, highlightedLine.value).value.branches;
        staging == StageAll(bs, old(nextId)) && nextId == old(nextId) + VertexCount(bs)
    {
      if highlightedLine.None? || !confirmed || data.None? {
        return;
      }
      if CategoryIndex(data.value.categories, highlightedLine.value.category).None? {
        return;
      }
      var found := FindLine(data.value, highlightedLine.value);
      if found.None? {
        staging := [];
        return;
      }
      FindLineWellFormed(data.value, highlightedLine.value);
      var bs := found.value.branches;
      StageAllGood(bs, nextId);
      staging, nextId := StageCopies(bs, nextId);
    }

    /**
     * deleteSelectedVertex: remove the selected vertex from every staged
     * list longer than 2, then clear the selection.
     */
    method DeleteSelectedVertex()
      requires Valid()
      modifies this`staging, this`selectedVertex
      ensures Valid()
      ensures old(selectedVertex).None? ==> staging == old(staging) && selectedVertex == None
      ensures old(selectedVertex).Some? ==>
        staging == DeleteFromLong(old(staging), old(selectedVertex).value) && selectedVertex == None
    {
      if selectedVertex.None? {
        return;
      }
      var id := selectedVertex.value;
      ghost var s0 := staging;
      var i := 0;
      while i < |staging|
        invariant 0 <= i <= |staging| && |staging| == |s0|
        invariant forall k :: 0 <= k < i ==> staging[k] == DeleteFromLong(s0, id)[k]
        invariant forall k :: i <= k < |staging| ==> staging[k] == s0[k]
      {
        if |staging[i].verts| > 2 {
          staging := staging[i := staging[i].(verts := RemoveFirst(staging[i].verts, id))];
        }
        i := i + 1;
      }
      assert staging == DeleteFromLong(s0, id);
      DeleteFromLongGood(s0, id, nextId);
      selectedVertex := None;
    }

    /**
     * insertVertexAt: on the first staged segment, in list order, that the
     * click at (mx, my) is within 5 px of, insert after its first end the
     * point of the segment nearest to the click, rounded to two decimals,
     * as a new vertex. Nothing else changes; with no such segment nothing
     * changes at all.
     */
    method InsertVertexAt(mx: int, my: int, w: nat, h: nat)
      requires Valid()
      modifies this`staging, this`nextId
      ensures Valid()
      ensures (staging, nextId) == InsertClick(old(staging), old(nextId), old(ViewFor(w, h)), Point(mx as real, my as real))
    {
      var v := ViewFor(w, h);
      var m := Point(mx as real, my as real);
      InsertClickGood(staging, nextId, v, m);
      staging, nextId := InsertVertex(staging, nextId, v, m);
    }

    /**
     * mousePressed: remember the point. In path editing on a highlighted
     * line, a right click off the selected vertex inserts a vertex and a
     * left click on a vertex selects it; otherwise the press reports what
     * lies under the mouse, for the lists to select.
     */
    method MousePressed(mx: int, my: int, right: bool, w: nat, h: nat) returns (hit: Hit)
      requires Valid()
      modifies this`lastPoint, this`selectedVertex, this`staging, this`nextId
      ensures Valid()
      ensures lastPoint == Some((mx, my))
      ensures var m := Point(mx as real, my as real);
        var v := old(ViewFor(w, h));
        var under := VertexAt(old(staging), v, m);
        if !(pathEditing && highlightedLine.Some?) then
          hit == FindAt(data, v, m) && staging == old(staging) && nextId == old(nextId)
          && selectedVertex == old(selectedVertex)
        else if !right then
          hit == NoHit && staging == old(staging) && nextId == old(nextId)
          && selectedVertex == (if under.Some? then under else old(selectedVertex))
        else if old(selectedVertex).Some? && under == old(selectedVertex) then
          hit == NoHit && staging == old(staging) && nextId == old(nextId) && selectedVertex == old(selectedVertex)
        else
          hit == NoHit && (staging, nextId) == InsertClick(old(staging), old(nextId), v, m)
          && selectedVertex == old(selectedVertex)
    {
      var v := ViewFor(w, h);
      var m := Point(mx as real, my as real);
      lastPoint := Some((mx, my));
      if pathEditing && highlightedLine.Some? {
        var under := VertexAt(staging, v, m);
        hit := NoHit;
        if right {
          if selectedVertex.Some? && under == selectedVertex {
            return;
          }
          InsertVertexAt(mx, my, w, h);
          return;
        }
        if under.Some? {
          selectedVertex := under;
        }
        return;
      }
      hit := FindAt(data, v, m);
    }

    /**
     * mouseDragged: move the dragged vertex (snapped and rounded); else, on
     * the station tab, move the highlighted station under the mouse to the
     * rounded cursor position; else pan the view with the pointer.
     */
    method MouseDragged(mx: int, my: int, stationTab: bool, w: nat, h: nat)
      requires Valid()
      modifies this`staging, this`data, this`offX, this`offZ, this`lastPoint
      ensures Valid()
      ensures var v := old(ViewFor(w, h));
        var m := Point(mx as real, my as real);
        && (old(draggedVertex).Some? ==>
              staging == MoveVertex(old(staging), old(draggedVertex).value,
                                    DragPosition(old(staging), old(draggedVertex).value, ToWorld(v, m),
                                                 old(orthogonal) && old(highlightedLine).Some?))
              && data == old(data) && offX == old(offX) && offZ == old(offZ))
        && (old(draggedVertex).None? && old(highlightedStation).Some? && stationTab
            && old(highlightedStation).value.0 == old(dataGeneration)
            && OnStation(old(data), v, m, old(highlightedStation).value.1) ==>
              var i := FindAt(old(data), v, m).index;
              var d := old(data).value;
              var p := RoundPoint(ToWorld(v, m));
              && i < |d.stations|
              && data == Some(d.(stations := d.stations[i := d.stations[i].(x := p.x, z := p.z)]))
              && staging == old(staging) && offX == old(offX) && offZ == old(offZ)
              && lastPoint == old(lastPoint))
        && (old(draggedVertex).None? && !(old(highlightedStation).Some? && stationTab
            && old(highlightedStation).value.0 == old(dataGeneration)
            && OnStation(old(data), v, m, old(highlightedStation).value.1)) ==>
              data == old(data) && staging == old(staging)
              && (old(lastPoint).None? ==> offX == old(offX) && offZ == old(offZ) && lastPoint == old(lastPoint))
              && (old(lastPoint).Some? ==>
                    ViewFor(w, h) == Pan(v, mx - old(lastPoint).value.0, my - old(lastPoint).value.1)
                    && lastPoint == Some((mx, my))))
      ensures old(draggedVertex).Some? || old(lastPoint).None? ==> lastPoint == old(lastPoint)
    {
      var v := ViewFor(w, h);
      var m := Point(mx as real, my as real);
      if draggedVertex.Some? {
        var id := draggedVertex.value;
        var p := DragPosition(staging, id, ToWorld(v, m), orthogonal && highlightedLine.Some?);
        MoveVertexSpec(staging, id, p, nextId);
        staging := MoveVertex(staging, id, p);
      } else if highlightedStation.Some? && stationTab && highlightedStation.value.0 == dataGeneration
                && OnStation(data, v, m, highlightedStation.value.1) {
        var i := FindAt(data, v, m).index;
        var d := data.value;
        var p := RoundPoint(ToWorld(v, m));
        data := Some(d.(stations := d.stations[i := d.stations[i].(x := p.x, z := p.z)]));
      } else if lastPoint.Some? {
        var (lx, lz) := lastPoint.value;
        offX := offX - (mx - lx) as real / zoom;
        offZ := offZ - (my - lz) as real / zoom;
        lastPoint := Some((mx, my));
      }
    }

    method MouseReleased()
      requires Valid()
      modifies this`draggedVertex
      ensures Valid() && draggedVertex == None
    {
      draggedVertex := None;
    }

    /** mouseWheelMoved: zoom in by 1.2 when the wheel turns up, out by 0.8 otherwise. */
    method MouseWheelMoved(rotation: int)
      requires Valid()
      modifies this`zoom
      ensures Valid()
      ensures zoom == old(zoom) * ZoomFactor(rotation)
    {
      MulPos(zoom, ZoomFactor(rotation), 0.0);
      zoom := zoom * ZoomFactor(rotation);
    }
  }

  /**
   * The body of insertVertexAt on the staging buffer: find the first segment
   * within reach and add the rounded nearest point of it after its first end,
   * under the next free id.
   */
  method InsertVertex(st: seq<Staged>, next: nat, v: View, m: Point) returns (st': seq<Staged>, next': nat)
    requires v.zoom != 0.0
    ensures (st', next') == InsertClick(st, next, v, m)
  {
    st', next' := st, next;
    var t := FindInsertTarget(st, v, m);
    if t.Some? {
      var k, i := t.value.0, t.value.1;
      var vs := st[k].verts;
      var p := InsertionPoint(vs[i].pos, vs[i + 1].pos, ToWorld(v, m));
      st' := Inserted(st, k, i + 1, SVertex(next, p));
      next' := next + 1;
    }
  }

  /**
   * The outer search loop of insertVertexAt: the first staged list, and in
   * it the first segment, that the click is within 5 px of.
   */
  method FindInsertTarget(st: seq<Staged>, v: View, m: Point) returns (t: Option<(nat, nat)>)
    ensures t == InsertTarget(st, v, m)
  {
    var k := 0;
    while k < |st|
      invariant 0 <= k <= |st|
      invariant forall a :: 0 <= a < k ==> !ListTouched(st[a], v, m)
    {
      var i := FindSegment(Positions(st[k].verts), v, m);
      if i.Some? {
        InsertTargetAt(st, v, m, k, i.value);
        return Some((k, i.value));
      }
      k := k + 1;
    }
    assert FirstListWithSegmentNear(st, v, m).None?;
    return None;
  }

  /** The inner search loop of insertVertexAt: the first segment of one list within 5 px. */
  method FindSegment(ps: seq<Point>, v: View, m: Point) returns (r: Option<nat>)
    ensures r == FirstSegmentNear(ps, v, m)
  {
    var i := 0;
    while i + 1 < |ps|
      invariant 0 <= i && (i < |ps| || i == 0)
      invariant forall b :: 0 <= b < i ==> !SegmentNear(v, ps[b], ps[b + 1], m)
    {
      if SegmentNear(v, ps[i], ps[i + 1], m) {
        return Some(i);
      }
      i := i + 1;
    }
    return None;
  }

  /**
   * The buffer highlightLine builds: emptied, then, when the line exists,
   * filled with fresh copies of its branches.
   */
  method StageLine(data: Option<Dataset>, key: LineKey, next: nat) returns (st: seq<Staged>, next': nat)
    requires data.Some? ==> WellFormed(data.value)
    ensures data.None? || FindLine(data.value, key).None? ==> st == [] && next' == next
    ensures data.Some? && FindLine(data.value, key).Some? ==>
      var bs := FindLine(data.value, key).value.branches;
      st == StageAll(bs, next) && next' == next + VertexCount(bs)
    ensures Good(st, next')
  {
    st, next' := [], next;
    if data.None? {
      return;
    }
    var found := FindLine(data.value, key);
    if found.None? {
      return;
    }
    FindLineWellFormed(data.value, key);
    StageAllGood(found.value.branches, next);
    st, next' := StageCopies(found.value.branches, next);
  }

  /**
   * The copy loop of highlightLine and resetCurrentPath: each branch in
   * order becomes a staged list of fresh vertices, numbered on from `next`.
   */
  method StageCopies(bs: seq<Branch>, next: nat) returns (st: seq<Staged>, next': nat)
    ensures st == StageAll(bs, next)
    ensures next' == next + VertexCount(bs)
  {
    st, next' := [], next;
    var i := 0;
    while i < |bs|
      invariant 0 <= i <= |bs|
      invariant st == StageAll(bs[..i], next)
      invariant next' == next + VertexCount(bs[..i])
    {
      var b := bs[i];
      var base := next';
      var copy: seq<SVertex> := [];
      var j := 0;
      while j < |b.vertices|
        invariant 0 <= j <= |b.vertices|
        invariant next' == base + j
        invariant copy == StageBranch(b, base).verts[..j]
      {
        copy := copy + [SVertex(next', b.vertices[j])];
        next' := next' + 1;
        j := j + 1;
      }
      assert Staged(b.name, copy) == StageBranch(b, base);
      assert bs[..i + 1][..i] == bs[..i] && bs[..i + 1][i] == b;
      assert StageAll(bs[..i + 1], next) == StageAll(bs[..i], next) + [StageBranch(b, base)];
      assert VertexCount(bs[..i + 1]) == VertexCount(bs[..i]) + |b.vertices|;
      st := st + [Staged(b.name, copy)];
      i := i + 1;
    }
    assert bs[..|bs|] == bs;
  }

  /** The write-back loop of commitPathChanges: the staged lists replace branch vertices one list at a time. */
  method CommitBranches(bs: seq<Branch>, st: seq<Staged>) returns (r: seq<Branch>)
    ensures r == CommitAll(bs, st)
  {
    r := bs;
    var i := 0;
    while i < |st|
      invariant 0 <= i <= |st|
      invariant r == CommitAll(bs, st[..i])
    {
      assert st[..i + 1][..i] == st[..i];
      r := ReplaceVerts(r, st[i]);
      i := i + 1;
    }
    assert st[..|st|] == st;
  }
}
