/**
 * The data-editing helpers of the editor window: applying the station form
 * (fields, the station's line memberships, and the lazy linking of the
 * station into the branches it names), adding a station with the next id,
 * deleting a station or a line (and the category the line leaves empty),
 * and applying typed vertex coordinates to the selected path vertex.
 *
 * The window and the map panel share one dataset; here it is the panel's
 * `data` field, which the window's methods update.
 */
module Editor {
  import opened Wrappers
  import opened Geometry
  import opened Transit
  import opened Staging
  import opened Canvas

  // ------------------------------------------------------------ the form

  /** A row of the connection table: category, line, map number, branch (an empty cell is ""). */
  datatype Row = Row(category: string, line: string, mapNumber: string, branch: string)

  /** An integer text field: empty, a number, or text Integer.parseInt rejects. */
  datatype IntField = Blank | Value(n: int) | Malformed

  /**
   * The station form as the window reads it. `x` and `z` are None when the
   * text is not a number; `kind` is the selected type, None when nothing is
   * selected.
   */
  datatype StationForm = StationForm(
    name: string, x: Option<real>, z: Option<real>, kind: Option<string>,
    notes: string, y1: IntField, y2: IntField, rows: seq<Row>)

  /** The type "station" is stored as null. */
  function StoredKind(t: Option<string>): Option<string> {
    if t == Some("station") then None else t
  }

  /** Types starting with "elev" carry the two elevator heights. */
  predicate IsElevator(kind: Option<string>) {
    kind.Some? && "elev" <= kind.value
  }

  function StoredNotes(text: string): Option<string> {
    if text == "" then None else Some(text)
  }

  function StoredInt(f: IntField): Option<int>
    requires !f.Malformed?
  {
    if f.Blank? then None else Some(f.n)
  }

  /**
   * The field assignments of applyChanges, in their order, on the selected
   * station, and whether all of them went through. A number that does not
   * parse throws, which skips every later assignment and the connection
   * rows; the assignments made before it stay.
   */
  function EditFields(s: Station, f: StationForm): (r: (Station, bool))
    ensures r.0.id == s.id && r.0.name == f.name
  {
    var s1 := s.(name := f.name);
    if f.x.None? then (s1, false)
    else
      var s2 := s1.(x := Round2(f.x.value));
      if f.z.None? then (s2, false)
      else
        var kind := StoredKind(f.kind);
        var s3 := s2.(z := Round2(f.z.value), kind := kind, notes := StoredNotes(f.notes));
        if IsElevator(kind) then
          if f.y1.Malformed? then (s3, false)
          else
            var s4 := s3.(y1 := StoredInt(f.y1));
            if f.y2.Malformed? then (s4, false)
            else (s4.(y2 := StoredInt(f.y2), lines := map[]), true)
        else (s3.(y1 := None, y2 := None, lines := map[]), true)
  }

  /**
   * The form goes through exactly when both coordinates parse and, for an
   * elevator, both heights are blank or numbers. Then the station holds the
   * form's values: coordinates rounded to two decimals, "station" stored as
   * no type, empty notes as none, heights only for an elevator, and an empty
   * membership map. A failed coordinate keeps every field after the name.
   */
  lemma EditFieldsSpec(s: Station, f: StationForm)
    ensures var (s', ok) := EditFields(s, f);
      && (ok <==> f.x.Some? && f.z.Some? && (IsElevator(StoredKind(f.kind)) ==> !f.y1.Malformed? && !f.y2.Malformed?))
      && (ok ==>
            && s'.x == Round2(f.x.value) && s'.z == Round2(f.z.value)
            && IsHundredths(s'.x) && IsHundredths(s'.z)
            && s'.kind == StoredKind(f.kind) && s'.notes == StoredNotes(f.notes)
            && (IsElevator(s'.kind) ==> s'.y1 == StoredInt(f.y1) && s'.y2 == StoredInt(f.y2))
            && (!IsElevator(s'.kind) ==> s'.y1 == None && s'.y2 == None)
            && s'.lines == map[])
      && (f.x.None? ==> s' == s.(name := f.name))
      && (f.x.Some? && f.z.None? ==> s' == s.(name := f.name, x := Round2(f.x.value)))
  {
  }

  // ------------------------------------------------------- memberships

  /** An empty branch cell means the main line. */
  function BranchName(r: Row): string {
    if r.branch == "" then MainLine else r.branch
  }

  /** Only rows that name both a category and a line are applied. */
  predicate Connects(r: Row) {
    r.category != "" && r.line != ""
  }

  predicate RowFor(r: Row, c: string, l: string) {
    Connects(r) && r.category == c && r.line == l
  }

  /** s.lines.computeIfAbsent(cat, ..).put(ln, {mapNumber, branch}). */
  function AddMembership(m: map<string, map<string, Membership>>, r: Row): map<string, map<string, Membership>> {
    var inner := if r.category in m then m[r.category] else map[];
    m[r.category := inner[r.line := Membership(r.mapNumber, BranchName(r))]]
  }

  /** The station's memberships after the rows, starting from the new empty map. */
  function Memberships(rows: seq<Row>): map<string, map<string, Membership>> {
    if |rows| == 0 then map[]
    else
      var m := Memberships(rows[..|rows| - 1]);
      var r := rows[|rows| - 1];
      if Connects(r) then AddMembership(m, r) else m
  }

  /**
   * The station serves line l of category c exactly when some applied row
   * names them, and the membership recorded is that of the last such row.
   */
  lemma {:induction false} MembershipsLastRowWins(rows: seq<Row>, c: string, l: string)
    ensures (c in Memberships(rows) && l in Memberships(rows)[c]) <==>
      exists k :: 0 <= k < |rows| && RowFor(rows[k], c, l)
    ensures c in Memberships(rows) && l in Memberships(rows)[c] ==>
      exists k :: 0 <= k < |rows| && RowFor(rows[k], c, l)
        && Memberships(rows)[c][l] == Membership(rows[k].mapNumber, BranchName(rows[k]))
        && forall k' :: k < k' < |rows| ==> !RowFor(rows[k'], c, l)
  {
    if |rows| > 0 {
      var init := rows[..|rows| - 1];
      var r := rows[|rows| - 1];
      MembershipsLastRowWins(init, c, l);
      assert forall k :: 0 <= k < |init| ==> init[k] == rows[k];
      if RowFor(r, c, l) {
        assert Memberships(rows)[c][l] == Membership(r.mapNumber, BranchName(r));
      } else if c in Memberships(init) && l in Memberships(init)[c] {
        assert Memberships(rows)[c][l] == Memberships(init)[c][l];
      }
    }
  }

  /** A category is a key of the memberships exactly when an applied row names it. */
  lemma {:induction false} MembershipCategories(rows: seq<Row>, c: string)
    ensures c in Memberships(rows) <==> exists k :: 0 <= k < |rows| && Connects(rows[k]) && rows[k].category == c
  {
    if |rows| > 0 {
      var init := rows[..|rows| - 1];
      MembershipCategories(init, c);
      assert forall k :: 0 <= k < |init| ==> init[k] == rows[k];
    }
  }

  // ----------------------------------------------------------- linking

  /** Add the station id if absent, and the station's point if no vertex equals it. */
  function LinkBranch(b: Branch, id: int, p: Point): Branch {
    b.(stations := if id in b.stations then b.stations else b.stations + [id],
       vertices := if p in b.vertices then b.vertices else b.vertices + [p])
  }

  /**
   * Linking keeps the name, puts the id and the point in, appends each of
   * them at the end only when it was missing (so neither is ever doubled),
   * and linking twice is linking once.
   */
  lemma LinkBranchSpec(b: Branch, id: int, p: Point)
    ensures var r := LinkBranch(b, id, p);
      && r.name == b.name && id in r.stations && p in r.vertices
      && (id in b.stations ==> r.stations == b.stations)
      && (id !in b.stations ==> r.stations == b.stations + [id] && multiset(r.stations)[id] == 1)
      && (p in b.vertices ==> r.vertices == b.vertices)
      && (p !in b.vertices ==> r.vertices == b.vertices + [p])
      && LinkBranch(r, id, p) == r
  {
    var r := LinkBranch(b, id, p);
    if id !in b.stations {
      assert multiset(b.stations)[id] == 0;
    }
  }

  /** ld.branches.computeIfAbsent(name, new empty branch), then linking it. */
  function LinkLine(l: Line, name: string, id: int, p: Point): Line {
    match BranchIndex(l.branches, name)
    case None => l.(branches := l.branches + [LinkBranch(Branch(name, [], []), id, p)])
    case Some(j) => l.(branches := l.branches[j := LinkBranch(l.branches[j], id, p)])
  }

  /**
   * After linking, the line has a branch of that name holding the id and
   * the point; a missing branch is created empty at the end first; every
   * other branch and every other field of the line stay, and branch names
   * stay distinct.
   */
  lemma LinkLineSpec(l: Line, name: string, id: int, p: Point)
    ensures var r := LinkLine(l, name, id, p);
      && r == l.(branches := r.branches)
      && BranchIndex(r.branches, name).Some?
      && id in r.branches[BranchIndex(r.branches, name).value].stations
      && p in r.branches[BranchIndex(r.branches, name).value].vertices
      && (BranchIndex(l.branches, name).None? ==>
            r.branches == l.branches + [Branch(name, [id], [p])])
      && (BranchIndex(l.branches, name).Some? ==> |r.branches| == |l.branches|)
      && (forall j :: 0 <= j < |l.branches| && l.branches[j].name != name ==> r.branches[j] == l.branches[j])
      && (DistinctBranchNames(l.branches) ==> DistinctBranchNames(r.branches))
  {
    var r := LinkLine(l, name, id, p);
    match BranchIndex(l.branches, name)
    case None =>
      assert LinkBranch(Branch(name, [], []), id, p) == Branch(name, [id], [p]);
      assert r.branches == l.branches + [Branch(name, [id], [p])];
      assert forall j :: 0 <= j < |l.branches| ==> r.branches[j] == l.branches[j];
      var b := BranchIndex(r.branches, name);
      assert r.branches[|l.branches|].name == name;
      assert b.Some? && !(b.value < |l.branches|);
    case Some(j) =>
      SameNamesSameBranchIndex(l.branches, r.branches, name);
  }

  /** Linking a branch does not move the search for a branch of another name. */
  lemma LinkLineOther(l: Line, name: string, id: int, p: Point, other: string)
    requires other != name
    ensures var r := LinkLine(l, name, id, p);
      && BranchIndex(r.branches, other) == BranchIndex(l.branches, other)
      && (BranchIndex(l.branches, other).Some? ==>
            r.branches[BranchIndex(l.branches, other).value] == l.branches[BranchIndex(l.branches, other).value])
  {
    var r := LinkLine(l, name, id, p);
    match BranchIndex(l.branches, name)
    case None =>
      var a, b := BranchIndex(r.branches, other), BranchIndex(l.branches, other);
      assert forall j :: 0 <= j < |l.branches| ==> r.branches[j] == l.branches[j];
      if a.Some? && b.Some? {
        assert !(a.value < b.value) && !(b.value < a.value);
      }
    case Some(j) =>
      SameNamesSameBranchIndex(l.branches, r.branches, other);
  }

  function KeyOf(r: Row): LineKey {
    LineKey(r.category, r.line)
  }

  /** One connection row's effect on the lines: link the station when the line exists. */
  function LinkRow(d: Dataset, id: int, p: Point, r: Row): Dataset {
    if !Connects(r) then d
    else
      match FindLine(d, KeyOf(r))
      case None => d
      case Some(l) => WithLine(d, KeyOf(r), LinkLine(l, BranchName(r), id, p))
  }

  /** The rows in table order. */
  function LinkRows(d: Dataset, id: int, p: Point, rows: seq<Row>): Dataset {
    if |rows| == 0 then d
    else LinkRow(LinkRows(d, id, p, rows[..|rows| - 1]), id, p, rows[|rows| - 1])
  }

  /** The line a row names, when it exists, has the row's branch holding the id and the point. */
  predicate Linked(d: Dataset, id: int, p: Point, r: Row) {
    Connects(r) && FindLine(d, KeyOf(r)).Some? ==>
      match BranchIndex(FindLine(d, KeyOf(r)).value.branches, BranchName(r))
      case None => false
      case Some(j) =>
        id in FindLine(d, KeyOf(r)).value.branches[j].stations
        && p in FindLine(d, KeyOf(r)).value.branches[j].vertices
  }

  lemma LinkRowLinks(d: Dataset, id: int, p: Point, r: Row)
    ensures Linked(LinkRow(d, id, p, r), id, p, r)
  {
    if Connects(r) && FindLine(d, KeyOf(r)).Some? {
      var l := FindLine(d, KeyOf(r)).value;
      LinkLineSpec(l, BranchName(r), id, p);
      WithLineFound(d, KeyOf(r), LinkLine(l, BranchName(r), id, p), KeyOf(r));
    }
  }

  lemma LinkRowKeeps(d: Dataset, id: int, p: Point, r: Row, r2: Row)
    requires Linked(d, id, p, r2)
    ensures Linked(LinkRow(d, id, p, r), id, p, r2)
  {
    if Connects(r) && FindLine(d, KeyOf(r)).Some? {
      var l := FindLine(d, KeyOf(r)).value;
      var l' := LinkLine(l, BranchName(r), id, p);
      LinkLineSpec(l, BranchName(r), id, p);
      WithLineFound(d, KeyOf(r), l', KeyOf(r2));
      if KeyOf(r2) == KeyOf(r) && BranchName(r2) != BranchName(r) {
        LinkLineOther(l, BranchName(r), id, p, BranchName(r2));
      }
    }
  }

  /** Replacing a line by itself changes nothing. */
  lemma WithLineSame(d: Dataset, k: LineKey)
    requires FindLine(d, k).Some?
    ensures WithLine(d, k, FindLine(d, k).value) == d
  {
    var ci := CategoryIndex(d.categories, k.category).value;
    var c := d.categories[ci];
    var li := LineIndex(c.lines, k.name).value;
    assert c.lines[li := c.lines[li]] == c.lines;
    assert d.categories[ci := c.(lines := c.lines)] == d.categories;
  }

  lemma LinkRowNoop(d: Dataset, id: int, p: Point, r: Row)
    requires Linked(d, id, p, r)
    ensures LinkRow(d, id, p, r) == d
  {
    if Connects(r) && FindLine(d, KeyOf(r)).Some? {
      var l := FindLine(d, KeyOf(r)).value;
      var j := BranchIndex(l.branches, BranchName(r)).value;
      assert l.branches[j := LinkBranch(l.branches[j], id, p)] == l.branches;
      assert LinkLine(l, BranchName(r), id, p) == l;
      WithLineSame(d, KeyOf(r));
    }
  }

  /** After the rows, every row that names an existing line is linked into it. */
  lemma {:induction false} LinkRowsLinks(d: Dataset, id: int, p: Point, rows: seq<Row>)
    ensures forall k :: 0 <= k < |rows| ==> Linked(LinkRows(d, id, p, rows), id, p, rows[k])
  {
    if |rows| > 0 {
      var init := rows[..|rows| - 1];
      var last := rows[|rows| - 1];
      LinkRowsLinks(d, id, p, init);
      forall k | 0 <= k < |rows|
        ensures Linked(LinkRows(d, id, p, rows), id, p, rows[k])
      {
        if k < |init| {
          assert rows[k] == init[k];
          LinkRowKeeps(LinkRows(d, id, p, init), id, p, last, rows[k]);
        } else {
          LinkRowLinks(LinkRows(d, id, p, init), id, p, last);
        }
      }
    }
  }

  /** Rows that are all linked already change nothing. */
  lemma {:induction false} LinkRowsNoop(d: Dataset, id: int, p: Point, rows: seq<Row>)
    requires forall k :: 0 <= k < |rows| ==> Linked(d, id, p, rows[k])
    ensures LinkRows(d, id, p, rows) == d
  {
    if |rows| > 0 {
      var init := rows[..|rows| - 1];
      assert forall k :: 0 <= k < |init| ==> init[k] == rows[k];
      LinkRowsNoop(d, id, p, init);
      LinkRowNoop(d, id, p, rows[|rows| - 1]);
    }
  }

  /** Applying the same connection rows a second time changes nothing. */
  lemma LinkRowsIdempotent(d: Dataset, id: int, p: Point, rows: seq<Row>)
    ensures LinkRows(LinkRows(d, id, p, rows), id, p, rows) == LinkRows(d, id, p, rows)
  {
    LinkRowsLinks(d, id, p, rows);
    LinkRowsNoop(LinkRows(d, id, p, rows), id, p, rows);
  }

  /**
   * Linking keeps the stations and the dataset's key uniqueness, and leaves
   * every line that no applied row names as it was.
   */
  lemma {:induction false} LinkRowsFrame(d: Dataset, id: int, p: Point, rows: seq<Row>, k2: LineKey)
    requires WellFormed(d)
    ensures LinkRows(d, id, p, rows).stations == d.stations
    ensures WellFormed(LinkRows(d, id, p, rows))
    ensures (forall k :: 0 <= k < |rows| ==> !(Connects(rows[k]) && KeyOf(rows[k]) == k2)) ==>
      FindLine(LinkRows(d, id, p, rows), k2) == FindLine(d, k2)
  {
    if |rows| > 0 {
      var init := rows[..|rows| - 1];
      var r := rows[|rows| - 1];
      assert forall k :: 0 <= k < |init| ==> init[k] == rows[k];
      LinkRowsFrame(d, id, p, init, k2);
      var mid := LinkRows(d, id, p, init);
      if Connects(r) && FindLine(mid, KeyOf(r)).Some? {
        var l := FindLine(mid, KeyOf(r)).value;
        FindLineWellFormed(mid, KeyOf(r));
        LinkLineSpec(l, BranchName(r), id, p);
        WithLineWellFormed(mid, KeyOf(r), LinkLine(l, BranchName(r), id, p));
        WithLineFound(mid, KeyOf(r), LinkLine(l, BranchName(r), id, p), k2);
      }
    }
  }

  /** The linking reads only the lines, not the stations. */
  lemma {:induction false} LinkRowsIgnoresStations(d: Dataset, ss: seq<Station>, id: int, p: Point, rows: seq<Row>)
    ensures LinkRows(d.(stations := ss), id, p, rows) == LinkRows(d, id, p, rows).(stations := ss)
  {
    if |rows| > 0 {
      LinkRowsIgnoresStations(d, ss, id, p, rows[..|rows| - 1]);
    }
  }

  // ------------------------------------------------------ applyChanges

  /**
   * The station branch of applyChanges on station i: the field assignments,
   * then, when they all went through, the new membership map built from the
   * rows and the station linked into every existing line a row names.
   */
  function StationEdit(d: Dataset, i: nat, f: StationForm): (r: Dataset)
    requires i < |d.stations|
    ensures |r.stations| == |d.stations|
  {
    var (s, ok) := EditFields(d.stations[i], f);
    if !ok then d.(stations := d.stations[i := s])
    else
      var linked := LinkRows(d, s.id, Point(s.x, s.z), f.rows);
      linked.(stations := d.stations[i := s.(lines := Memberships(f.rows))])
  }

  /**
   * Only station i changes among the stations; when the form goes through
   * it has the rows' memberships and is linked into every line the rows
   * name, lines no row names are untouched, and the dataset stays well
   * formed; when it does not, the lines are untouched.
   */
  lemma StationEditSpec(d: Dataset, i: nat, f: StationForm, k2: LineKey)
    requires WellFormed(d) && i < |d.stations|
    ensures var r := StationEdit(d, i, f);
      var (s, ok) := EditFields(d.stations[i], f);
      && WellFormed(r)
      && (forall j :: 0 <= j < |d.stations| && j != i ==> r.stations[j] == d.stations[j])
      && r.stations[i].id == d.stations[i].id && r.stations[i].name == f.name
      && (!ok ==> r.categories == d.categories && r.stations[i] == s)
      && (ok ==> r.stations[i] == s.(lines := Memberships(f.rows)))
      && (ok ==> forall k :: 0 <= k < |f.rows| ==> Linked(r, s.id, Point(s.x, s.z), f.rows[k]))
      && ((forall k :: 0 <= k < |f.rows| ==> !(Connects(f.rows[k]) && KeyOf(f.rows[k]) == k2)) ==>
            FindLine(r, k2) == FindLine(d, k2))
  {
    var (s, ok) := EditFields(d.stations[i], f);
    if ok {
      var p := Point(s.x, s.z);
      var linked := LinkRows(d, s.id, p, f.rows);
      LinkRowsFrame(d, s.id, p, f.rows, k2);
      LinkRowsLinks(d, s.id, p, f.rows);
      var r := StationEdit(d, i, f);
      assert r.categories == linked.categories;
      forall k | 0 <= k < |f.rows|
        ensures Linked(r, s.id, p, f.rows[k])
      {
        assert Linked(linked, s.id, p, f.rows[k]);
      }
    }
  }

  /** The fields of a station the form went through on are what the form writes again. */
  lemma EditFieldsAgain(s: Station, f: StationForm, m: map<string, map<string, Membership>>)
    ensures var (s', ok) := EditFields(s, f);
      EditFields(if ok then s'.(lines := m) else s', f) == (s', ok)
  {
  }

  /** Pressing "apply" twice with the same form leaves the dataset as pressing it once does. */
  lemma StationEditIdempotent(d: Dataset, i: nat, f: StationForm)
    requires i < |d.stations|
    ensures StationEdit(StationEdit(d, i, f), i, f) == StationEdit(d, i, f)
  {
    var (s, ok) := EditFields(d.stations[i], f);
    var once := StationEdit(d, i, f);
    EditFieldsAgain(d.stations[i], f, Memberships(f.rows));
    if ok {
      var p := Point(s.x, s.z);
      var linked := LinkRows(d, s.id, p, f.rows);
      var ss := d.stations[i := s.(lines := Memberships(f.rows))];
      assert once == linked.(stations := ss);
      LinkRowsIgnoresStations(linked, ss, s.id, p, f.rows);
      LinkRowsIdempotent(d, s.id, p, f.rows);
      assert once.stations[i := s.(lines := Memberships(f.rows))] == ss;
    } else {
      assert once.stations[i := s] == once.stations;
    }
  }

  /**
   * The row loop of applyChanges: each row that names a category and a
   * line is recorded in the new membership map and, when the line exists,
   * links the station into the row's branch.
   */
  method ApplyRows(d: Dataset, id: int, p: Point, rows: seq<Row>)
    returns (lines: map<string, map<string, Membership>>, d': Dataset)
    ensures lines == Memberships(rows) && d' == LinkRows(d, id, p, rows)
  {
    lines := map[];
    d' := d;
    var k := 0;
    while k < |rows|
      invariant 0 <= k <= |rows|
      invariant lines == Memberships(rows[..k]) && d' == LinkRows(d, id, p, rows[..k])
    {
      var r := rows[k];
      assert rows[..k + 1][..k] == rows[..k];
      if Connects(r) {
        lines := AddMembership(lines, r);
        var found := FindLine(d', KeyOf(r));
        if found.Some? {
          d' := WithLine(d', KeyOf(r), LinkLine(found.value, BranchName(r), id, p));
        }
      }
      k := k + 1;
    }
    assert rows[..|rows|] == rows;
  }

  // --------------------------------------------- addNewStation, deleteSelected

  /** The largest station id, none for no stations. */
  function MaxId(ss: seq<Station>): (r: Option<int>)
    ensures r.None? <==> |ss| == 0
    ensures r.Some? ==> (forall i :: 0 <= i < |ss| ==> ss[i].id <= r.value)
                        && exists i :: 0 <= i < |ss| && ss[i].id == r.value
  {
    if |ss| == 0 then None
    else
      var m := MaxId(ss[..|ss| - 1]);
      var x := ss[|ss| - 1].id;
      assert forall i :: 0 <= i < |ss| - 1 ==> ss[..|ss| - 1][i] == ss[i];
      if m.Some? && m.value >= x then m else Some(x)
  }

  /** The largest id plus one, or 1 when there are no stations. */
  function NewStationId(ss: seq<Station>): (r: int)
    ensures forall i :: 0 <= i < |ss| ==> ss[i].id < r
    ensures |ss| == 0 ==> r == 1
    ensures |ss| > 0 ==> exists i :: 0 <= i < |ss| && ss[i].id == r - 1
  {
    match MaxId(ss)
    case None => 1
    case Some(m) => m + 1
  }

  /** addNewStation: a station "New Station" at the view centre, with a fresh id, appended. */
  function AddStation(d: Dataset, x: real, z: real): (r: Dataset)
    ensures r.categories == d.categories
    ensures |r.stations| == |d.stations| + 1 && r.stations[..|d.stations|] == d.stations
    ensures var s := r.stations[|d.stations|];
      && s.name == "New Station" && s.x == x && s.z == z && s.lines == map[]
      && s.kind == None && s.notes == None && s.y1 == None && s.y2 == None
      && forall i :: 0 <= i < |d.stations| ==> d.stations[i].id < s.id
  {
    var s := Station(NewStationId(d.stations), "New Station", x, z, None, None, None, None, map[]);
    assert (d.stations + [s])[..|d.stations|] == d.stations;
    d.(stations := d.stations + [s])
  }

  /** Adding a station keeps the ids distinct when they were. */
  lemma AddStationKeepsIdsDistinct(d: Dataset, x: real, z: real)
    requires forall i, j :: 0 <= i < j < |d.stations| ==> d.stations[i].id != d.stations[j].id
    ensures var ss := AddStation(d, x, z).stations;
      forall i, j :: 0 <= i < j < |ss| ==> ss[i].id != ss[j].id
  {
    var ss := AddStation(d, x, z).stations;
    forall i, j | 0 <= i < j < |ss|
      ensures ss[i].id != ss[j].id
    {
      assert ss[i] == d.stations[i];
      if j < |d.stations| {
        assert ss[j] == d.stations[j];
      }
    }
  }

  /** data.stations.remove(s) on the selected station. */
  function DeleteStation(d: Dataset, i: nat): (r: Dataset)
    requires i < |d.stations|
    ensures r.categories == d.categories && |r.stations| == |d.stations| - 1
    ensures forall j :: 0 <= j < |r.stations| ==> r.stations[j] == d.stations[if j < i then j else j + 1]
  {
    d.(stations := d.stations[..i] + d.stations[i + 1..])
  }

  /** HashMap.remove on the lines of a category. */
  function WithoutLine(ls: seq<Line>, name: string): (r: seq<Line>)
    ensures |r| <= |ls|
  {
    match LineIndex(ls, name)
    case None => ls
    case Some(li) => ls[..li] + ls[li + 1..]
  }

  /**
   * The line branch of deleteSelected: remove the line from its category,
   * then the category when it is left empty. A missing category throws
   * before anything changes.
   */
  function DeleteLine(d: Dataset, k: LineKey): Dataset {
    match CategoryIndex(d.categories, k.category)
    case None => d
    case Some(ci) =>
      var c := d.categories[ci];
      var ls := WithoutLine(c.lines, k.name);
      if |ls| == 0 then d.(categories := d.categories[..ci] + d.categories[ci + 1..])
      else d.(categories := d.categories[ci := c.(lines := ls)])
  }

  /** Removing the category at index ci shifts the search for any other name. */
  lemma CategoryIndexRemoved(cs: seq<Category>, ci: nat, name: string)
    requires ci < |cs| && cs[ci].name != name
    ensures var r := CategoryIndex(cs[..ci] + cs[ci + 1..], name);
      match CategoryIndex(cs, name)
      case None => r.None?
      case Some(j) => r == Some(if j < ci then j else j - 1)
  {
    var cs' := cs[..ci] + cs[ci + 1..];
    match CategoryIndex(cs, name)
    case None =>
      forall j | 0 <= j < |cs'| ensures cs'[j].name != name {
        assert cs'[j] == cs[if j < ci then j else j + 1];
      }
    case Some(j) =>
      var j' := if j < ci then j else j - 1;
      assert cs'[j'] == cs[j];
      forall t | 0 <= t < j' ensures cs'[t].name != name {
        assert cs'[t] == cs[if t < ci then t else t + 1];
      }
      var r := CategoryIndex(cs', name);
      assert r.Some?;
  }

  /** Removing the line at index li shifts the search for any other name. */
  lemma LineIndexRemoved(ls: seq<Line>, li: nat, name: string)
    requires li < |ls| && ls[li].name != name
    ensures var r := LineIndex(ls[..li] + ls[li + 1..], name);
      match LineIndex(ls, name)
      case None => r.None?
      case Some(j) => r == Some(if j < li then j else j - 1)
  {
    var ls' := ls[..li] + ls[li + 1..];
    match LineIndex(ls, name)
    case None =>
      forall j | 0 <= j < |ls'| ensures ls'[j].name != name {
        assert ls'[j] == ls[if j < li then j else j + 1];
      }
    case Some(j) =>
      var j' := if j < li then j else j - 1;
      assert ls'[j'] == ls[j];
      forall t | 0 <= t < j' ensures ls'[t].name != name {
        assert ls'[t] == ls[if t < li then t else t + 1];
      }
      var r := LineIndex(ls', name);
      assert r.Some?;
  }

  /** Removing a line leaves distinct names and no line of that name; an empty result means every line had it. */
  lemma WithoutLineSpec(ls: seq<Line>, name: string)
    requires DistinctLineNames(ls)
    ensures var r := WithoutLine(ls, name);
      && DistinctLineNames(r)
      && LineIndex(r, name).None?
      && (forall j :: 0 <= j < |r| ==> exists t :: 0 <= t < |ls| && r[j] == ls[t])
      && (|r| == 0 ==> forall j :: 0 <= j < |ls| ==> ls[j].name == name)
  {
    var r := WithoutLine(ls, name);
    var li := LineIndex(ls, name);
    if li.Some? {
      var x := li.value;
      assert r == ls[..x] + ls[x + 1..];
      forall j | 0 <= j < |r|
        ensures r[j] == ls[if j < x then j else j + 1] && r[j].name != name
      {
        var t := if j < x then j else j + 1;
        assert r[j] == ls[t];
        assert t != x;
        if t < x {
          assert ls[t].name != ls[x].name;
        } else {
          assert ls[x].name != ls[t].name;
        }
      }
      forall a, b | 0 <= a < b < |r|
        ensures r[a].name != r[b].name
      {
        assert r[a] == ls[if a < x then a else a + 1];
        assert r[b] == ls[if b < x then b else b + 1];
      }
    }
  }

  /** Removing a line does not change what the search for another name finds. */
  lemma WithoutLineOther(ls: seq<Line>, name: string, other: string)
    requires other != name
    ensures var r := WithoutLine(ls, name);
      && LineIndex(r, other).Some? == LineIndex(ls, other).Some?
      && (LineIndex(ls, other).Some? ==> r[LineIndex(r, other).value] == ls[LineIndex(ls, other).value])
  {
    var li := LineIndex(ls, name);
    if li.Some? {
      assert WithoutLine(ls, name) == ls[..li.value] + ls[li.value + 1..];
      LineIndexRemoved(ls, li.value, other);
    }
  }

  /** Removing a category keeps the others' names distinct and their order. */
  lemma WithoutCategorySpec(cs: seq<Category>, ci: nat)
    requires ci < |cs| && DistinctCategoryNames(cs)
    ensures var r := cs[..ci] + cs[ci + 1..];
      && DistinctCategoryNames(r)
      && CategoryIndex(r, cs[ci].name).None?
      && (forall j :: 0 <= j < |r| ==> r[j] == cs[if j < ci then j else j + 1])
  {
    var r := cs[..ci] + cs[ci + 1..];
    assert forall j :: 0 <= j < |r| ==> r[j] == cs[if j < ci then j else j + 1];
  }

  /** The case where the category keeps at least one line: the lookups. */
  lemma DeleteLineKeepsCategory(d: Dataset, k: LineKey, k2: LineKey, ci: nat)
    requires CategoryIndex(d.categories, k.category) == Some(ci)
    requires DistinctLineNames(d.categories[ci].lines)
    requires |WithoutLine(d.categories[ci].lines, k.name)| > 0
    ensures var r := DeleteLine(d, k);
      && FindLine(r, k).None?
      && (k2 != k ==> FindLine(r, k2) == FindLine(d, k2))
      && CategoryIndex(r.categories, k.category) == Some(ci)
      && |r.categories[ci].lines| > 0
  {
    var cs := d.categories;
    var c := cs[ci];
    var ls := WithoutLine(c.lines, k.name);
    WithoutLineSpec(c.lines, k.name);
    if k2.name != k.name {
      WithoutLineOther(c.lines, k.name, k2.name);
    }
    var cs' := cs[ci := c.(lines := ls)];
    assert DeleteLine(d, k) == d.(categories := cs');
    SameNamesSameCategoryIndex(cs, cs', k.category);
    SameNamesSameCategoryIndex(cs, cs', k2.category);
  }

  /** The case where the category keeps at least one line: the dataset stays well formed. */
  lemma DeleteLineKeepsWellFormed(d: Dataset, k: LineKey, ci: nat)
    requires WellFormed(d) && CategoryIndex(d.categories, k.category) == Some(ci)
    requires |WithoutLine(d.categories[ci].lines, k.name)| > 0
    ensures WellFormed(DeleteLine(d, k))
  {
    var c := d.categories[ci];
    WithoutLineSpec(c.lines, k.name);
    ReplacedLinesWellFormed(d, ci, WithoutLine(c.lines, k.name));
  }

  /** Replacing the lines of a category by lines taken from it, with distinct names, keeps the dataset well formed. */
  lemma ReplacedLinesWellFormed(d: Dataset, ci: nat, ls: seq<Line>)
    requires WellFormed(d) && ci < |d.categories| && DistinctLineNames(ls)
    requires forall j :: 0 <= j < |ls| ==> exists t :: 0 <= t < |d.categories[ci].lines| && ls[j] == d.categories[ci].lines[t]
    ensures WellFormed(d.(categories := d.categories[ci := d.categories[ci].(lines := ls)]))
  {
    var c := d.categories[ci];
    var cs' := d.categories[ci := c.(lines := ls)];
    forall i, j | 0 <= i < |cs'| && 0 <= j < |cs'[i].lines|
      ensures DistinctBranchNames(cs'[i].lines[j].branches)
    {
      if i == ci {
        var t :| 0 <= t < |c.lines| && ls[j] == c.lines[t];
      }
    }
  }

  /** The case where the category is left without lines and is removed: the lookups. */
  lemma DeleteLineDropsCategory(d: Dataset, k: LineKey, k2: LineKey, ci: nat)
    requires CategoryIndex(d.categories, k.category) == Some(ci)
    requires DistinctCategoryNames(d.categories) && DistinctLineNames(d.categories[ci].lines)
    requires |WithoutLine(d.categories[ci].lines, k.name)| == 0
    ensures var r := DeleteLine(d, k);
      && CategoryIndex(r.categories, k.category).None?
      && (k2 != k ==> FindLine(r, k2) == FindLine(d, k2))
  {
    var cs := d.categories;
    WithoutCategorySpec(cs, ci);
    assert DeleteLine(d, k) == d.(categories := cs[..ci] + cs[ci + 1..]);
    if k2.category != k.category {
      DroppedCategoryOther(d, ci, k2);
    } else if k2 != k {
      WithoutLineSpec(cs[ci].lines, k.name);
      assert LineIndex(cs[ci].lines, k2.name).None?;
    }
  }

  /** Removing a category other than the one of key k2 does not change what k2 finds. */
  lemma DroppedCategoryOther(d: Dataset, ci: nat, k2: LineKey)
    requires ci < |d.categories| && d.categories[ci].name != k2.category
    ensures FindLine(d.(categories := d.categories[..ci] + d.categories[ci + 1..]), k2) == FindLine(d, k2)
  {
    var cs := d.categories;
    var cs' := cs[..ci] + cs[ci + 1..];
    CategoryIndexRemoved(cs, ci, k2.category);
    match CategoryIndex(cs, k2.category)
    case None =>
    case Some(j) =>
      var j' := if j < ci then j else j - 1;
      assert cs'[j'] == cs[j];
  }

  /** The case where the category is left without lines: the dataset stays well formed. */
  lemma DeleteLineDropsWellFormed(d: Dataset, k: LineKey, ci: nat)
    requires WellFormed(d) && CategoryIndex(d.categories, k.category) == Some(ci)
    requires |WithoutLine(d.categories[ci].lines, k.name)| == 0
    ensures WellFormed(DeleteLine(d, k))
  {
    var cs := d.categories;
    WithoutCategorySpec(cs, ci);
    var cs' := cs[..ci] + cs[ci + 1..];
    assert DeleteLine(d, k) == d.(categories := cs');
  }

  /**
   * After deleting, the line is gone, every other line is found as before,
   * the stations stay, the dataset stays well formed, and the category is
   * gone too when the delete left it without lines.
   */
  lemma DeleteLineSpec(d: Dataset, k: LineKey, k2: LineKey)
    requires WellFormed(d)
    ensures var r := DeleteLine(d, k);
      && r.stations == d.stations
      && WellFormed(r)
      && FindLine(r, k).None?
      && (k2 != k ==> FindLine(r, k2) == FindLine(d, k2))
      && (CategoryIndex(r.categories, k.category).Some? ==>
            |r.categories[CategoryIndex(r.categories, k.category).value].lines| > 0)
  {
    match CategoryIndex(d.categories, k.category)
    case None =>
    case Some(ci) =>
      if |WithoutLine(d.categories[ci].lines, k.name)| == 0 {
        DeleteLineDropsCategory(d, k, k2, ci);
        DeleteLineDropsWellFormed(d, k, ci);
      } else {
        DeleteLineKeepsCategory(d, k, k2, ci);
        DeleteLineKeepsWellFormed(d, k, ci);
      }
  }

  // --------------------------------------------------------------- window

  /** The editor window: its map panel, which holds the shared dataset. */
  class HighwayEditor {
    const panel: MapPanel

    ghost predicate Valid()
      reads panel
    {
      panel.Valid()
    }

    constructor (p: MapPanel)
      requires p.Valid()
      ensures panel == p && Valid()
    {
      panel := p;
    }

    /**
     * applyChanges on the station tab, for the selected station (by index);
     * nothing happens without data or without a selection.
     */
    method ApplyStationChanges(sel: Option<nat>, f: StationForm)
      requires Valid()
      requires panel.data.Some? && sel.Some? ==> sel.value < |panel.data.value.stations|
      modifies panel`data
      ensures Valid()
      ensures old(panel.data).None? || sel.None? ==> panel.data == old(panel.data)
      ensures old(panel.data).Some? && sel.Some? ==>
        panel.data == Some(StationEdit(old(panel.data).value, sel.value, f))
    {
      if panel.data.None? || sel.None? {
        return;
      }
      var d := panel.data.value;
      var i := sel.value;
      StationEditSpec(d, i, f, LineKey("", ""));
      var (s, ok) := EditFields(d.stations[i], f);
      if !ok {
        panel.data := Some(d.(stations := d.stations[i := s]));
        return;
      }
      var lines, linked := ApplyRows(d, s.id, Point(s.x, s.z), f.rows);
      panel.data := Some(linked.(stations := d.stations[i := s.(lines := lines)]));
    }

    /** addNewStation: nothing happens without data. */
    method AddNewStation()
      requires Valid()
      modifies panel`data
      ensures Valid()
      ensures old(panel.data).None? ==> panel.data == None
      ensures old(panel.data).Some? ==> panel.data == Some(AddStation(old(panel.data).value, panel.offX, panel.offZ))
    {
      if panel.data.None? {
        return;
      }
      panel.data := Some(AddStation(panel.data.value, panel.offX, panel.offZ));
    }

    /** deleteSelected on the station tab: removes the selected station when confirmed. */
    method DeleteSelectedStation(sel: Option<nat>, confirmed: bool)
      requires Valid()
      requires panel.data.Some? && sel.Some? ==> sel.value < |panel.data.value.stations|
      modifies panel`data
      ensures Valid()
      ensures old(panel.data).Some? && sel.Some? && confirmed ==>
        panel.data == Some(DeleteStation(old(panel.data).value, sel.value))
      ensures !(old(panel.data).Some? && sel.Some? && confirmed) ==> panel.data == old(panel.data)
    {
      if panel.data.None? || sel.None? || !confirmed {
        return;
      }
      panel.data := Some(DeleteStation(panel.data.value, sel.value));
    }

    /** deleteSelected on the line tab: removes the selected line when confirmed. */
    method DeleteSelectedLine(sel: Option<LineKey>, confirmed: bool)
      requires Valid()
      modifies panel`data
      ensures Valid()
      ensures old(panel.data).Some? && sel.Some? && confirmed ==>
        panel.data == Some(DeleteLine(old(panel.data).value, sel.value))
      ensures !(old(panel.data).Some? && sel.Some? && confirmed) ==> panel.data == old(panel.data)
    {
      if panel.data.None? || sel.None? || !confirmed {
        return;
      }
      DeleteLineSpec(panel.data.value, sel.value, sel.value);
      panel.data := Some(DeleteLine(panel.data.value, sel.value));
    }

    /**
     * updateSelectedVertex: both typed coordinates rounded to two decimals
     * and given to the selected vertex; when either does not parse nothing
     * changes.
     */
    method UpdateSelectedVertex(x: Option<real>, z: Option<real>)
      requires Valid()
      modifies panel`staging
      ensures Valid()
      ensures (x.None? || z.None? || panel.selectedVertex.None?) ==> panel.staging == old(panel.staging)
      ensures x.Some? && z.Some? && panel.selectedVertex.Some? ==>
        panel.staging == MoveVertex(old(panel.staging), panel.selectedVertex.value, Point(Round2(x.value), Round2(z.value)))
    {
      if x.None? || z.None? {
        return;
      }
      panel.UpdateSelectedVertexPosition(Round2(x.value), Round2(z.value));
    }
  }
}
