/**
 * The transit dataset the editor works on: stations, and lines grouped by
 * category, each line made of named branches that list station ids and the
 * polyline vertices drawn on the map.
 *
 * Every hash map whose iteration order the editor depends on (categories,
 * the lines of a category, the branches of a line) is a sequence in that
 * iteration order whose names are distinct.
 */
module Transit {
  import opened Wrappers
  import opened Geometry

  /** The String[]{mapNumber, branchName} a station keeps for each line it serves. */
  datatype Membership = Membership(mapNumber: string, branch: string)

  /**
   * A station. `kind` is None for a plain station (the type "station" is
   * stored as null); a station's lines map category -> line name -> membership.
   */
  datatype Station = Station(
    id: int, name: string, x: real, z: real,
    kind: Option<string>, notes: Option<string>, y1: Option<int>, y2: Option<int>,
    lines: map<string, map<string, Membership>>)

  datatype Branch = Branch(name: string, stations: seq<int>, vertices: seq<Point>)

  datatype Line = Line(name: string, code: string, prefix: string, y: int, color: string, branches: seq<Branch>)

  datatype Category = Category(name: string, lines: seq<Line>)

  datatype Dataset = Dataset(stations: seq<Station>, categories: seq<Category>)

  /** The key "category: line" that the line list shows, as the pair it stands for. */
  datatype LineKey = LineKey(category: string, name: string)

  /** The branch name used when a connection row names none. */
  const MainLine: string := "Main line"

  // ------------------------------------------------------------- searches

  /** HashMap.get on the categories: the index of the category called `name`. */
  function CategoryIndex(cs: seq<Category>, name: string): (r: Option<nat>)
    ensures r.None? <==> forall i :: 0 <= i < |cs| ==> cs[i].name != name
    ensures r.Some? ==> r.value < |cs| && cs[r.value].name == name
                        && forall i :: 0 <= i < r.value ==> cs[i].name != name
  {
    var flags := seq(|cs|, i requires 0 <= i < |cs| => cs[i].name == name);
    assert forall i :: 0 <= i < |cs| ==> flags[i] == (cs[i].name == name);
    FirstTrue(flags)
  }

  /** HashMap.get on the lines of a category. */
  function LineIndex(ls: seq<Line>, name: string): (r: Option<nat>)
    ensures r.None? <==> forall i :: 0 <= i < |ls| ==> ls[i].name != name
    ensures r.Some? ==> r.value < |ls| && ls[r.value].name == name
                        && forall i :: 0 <= i < r.value ==> ls[i].name != name
  {
    var flags := seq(|ls|, i requires 0 <= i < |ls| => ls[i].name == name);
    assert forall i :: 0 <= i < |ls| ==> flags[i] == (ls[i].name == name);
    FirstTrue(flags)
  }

  /** HashMap.get on the branches of a line. */
  function BranchIndex(bs: seq<Branch>, name: string): (r: Option<nat>)
    ensures r.None? <==> forall i :: 0 <= i < |bs| ==> bs[i].name != name
    ensures r.Some? ==> r.value < |bs| && bs[r.value].name == name
                        && forall i :: 0 <= i < r.value ==> bs[i].name != name
  {
    var flags := seq(|bs|, i requires 0 <= i < |bs| => bs[i].name == name);
    assert forall i :: 0 <= i < |bs| ==> flags[i] == (bs[i].name == name);
    FirstTrue(flags)
  }

  /** data.lines.get(category).get(name), or None where either lookup finds nothing. */
  function FindLine(d: Dataset, k: LineKey): (r: Option<Line>)
    ensures r.Some? <==> CategoryIndex(d.categories, k.category).Some?
                         && LineIndex(d.categories[CategoryIndex(d.categories, k.category).value].lines, k.name).Some?
    ensures r.Some? ==> r.value.name == k.name
  {
    match CategoryIndex(d.categories, k.category)
    case None => None
    case Some(ci) =>
      match LineIndex(d.categories[ci].lines, k.name)
      case None => None
      case Some(li) => Some(d.categories[ci].lines[li])
  }

  /** The dataset with the line at key `k` replaced by `l`; unchanged when there is no such line. */
  function WithLine(d: Dataset, k: LineKey, l: Line): (r: Dataset)
    requires l.name == k.name
    ensures r.stations == d.stations
    ensures |r.categories| == |d.categories|
    ensures forall i :: 0 <= i < |d.categories| ==>
              r.categories[i].name == d.categories[i].name && |r.categories[i].lines| == |d.categories[i].lines|
  {
    match CategoryIndex(d.categories, k.category)
    case None => d
    case Some(ci) =>
      var c := d.categories[ci];
      match LineIndex(c.lines, k.name)
      case None => d
      case Some(li) =>
        d.(categories := d.categories[ci := c.(lines := c.lines[li := l])])
  }

  /** Replacing a line makes FindLine return the new line there, and changes no other line. */
  lemma WithLineFound(d: Dataset, k: LineKey, l: Line, k2: LineKey)
    requires l.name == k.name
    requires FindLine(d, k).Some?
    ensures FindLine(WithLine(d, k, l), k) == Some(l)
    ensures k2 != k ==> FindLine(WithLine(d, k, l), k2) == FindLine(d, k2)
  {
    var ci := CategoryIndex(d.categories, k.category).value;
    var c := d.categories[ci];
    var li := LineIndex(c.lines, k.name).value;
    var d' := WithLine(d, k, l);
    assert d'.categories == d.categories[ci := c.(lines := c.lines[li := l])];
    SameNamesSameCategoryIndex(d.categories, d'.categories, k.category);
    SameNamesSameLineIndex(c.lines, c.lines[li := l], k.name);
    if k2 != k {
      SameNamesSameCategoryIndex(d.categories, d'.categories, k2.category);
      var ci2 := CategoryIndex(d.categories, k2.category);
      if ci2.Some? {
        SameNamesSameLineIndex(d.categories[ci2.value].lines, d'.categories[ci2.value].lines, k2.name);
      }
    }
  }

  /** The category search only looks at names. */
  lemma SameNamesSameCategoryIndex(cs: seq<Category>, cs': seq<Category>, name: string)
    requires |cs| == |cs'| && forall i :: 0 <= i < |cs| ==> cs[i].name == cs'[i].name
    ensures CategoryIndex(cs, name) == CategoryIndex(cs', name)
  {
    var r, r' := CategoryIndex(cs, name), CategoryIndex(cs', name);
    if r.Some? && r'.Some? {
      assert !(r.value < r'.value) && !(r'.value < r.value);
    }
  }

  /** The line search only looks at names. */
  lemma SameNamesSameLineIndex(ls: seq<Line>, ls': seq<Line>, name: string)
    requires |ls| == |ls'| && forall i :: 0 <= i < |ls| ==> ls[i].name == ls'[i].name
    ensures LineIndex(ls, name) == LineIndex(ls', name)
  {
    var r, r' := LineIndex(ls, name), LineIndex(ls', name);
    if r.Some? && r'.Some? {
      assert !(r.value < r'.value) && !(r'.value < r.value);
    }
  }

  // --------------------------------------------------------- well-formedness

  predicate DistinctBranchNames(bs: seq<Branch>) {
    forall i, j :: 0 <= i < j < |bs| ==> bs[i].name != bs[j].name
  }

  predicate DistinctLineNames(ls: seq<Line>) {
    forall i, j :: 0 <= i < j < |ls| ==> ls[i].name != ls[j].name
  }

  predicate DistinctCategoryNames(cs: seq<Category>) {
    forall i, j :: 0 <= i < j < |cs| ==> cs[i].name != cs[j].name
  }

  /** The key uniqueness every Java map in the dataset has. */
  predicate WellFormed(d: Dataset) {
    && DistinctCategoryNames(d.categories)
    && (forall i :: 0 <= i < |d.categories| ==> DistinctLineNames(d.categories[i].lines))
    && (forall i, j :: 0 <= i < |d.categories| && 0 <= j < |d.categories[i].lines| ==>
          DistinctBranchNames(d.categories[i].lines[j].branches))
  }

  /** Replacing a line by one with the same name and distinct branch names keeps the dataset well formed. */
  lemma WithLineWellFormed(d: Dataset, k: LineKey, l: Line)
    requires WellFormed(d) && l.name == k.name && DistinctBranchNames(l.branches)
    ensures WellFormed(WithLine(d, k, l))
  {
  }

  /** In a well-formed dataset the line FindLine returns has distinct branch names. */
  lemma FindLineWellFormed(d: Dataset, k: LineKey)
    requires WellFormed(d) && FindLine(d, k).Some?
    ensures DistinctBranchNames(FindLine(d, k).value.branches)
  {
  }
}
