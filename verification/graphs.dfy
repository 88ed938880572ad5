/** The server's dataset catalogue: the list of graphs, the name-keyed
    index built from it, and the loader that turns parsed TSV rows into
    points. */
module Graphs {
  import opened Wrappers
  import opened Response

  /** What reading a data file can fail with; the text is the reader's. */
  datatype ReadError = ReadError(message: string)

  /** One deserialised TSV row with its `Date` and `Value` columns */
  datatype Row = Row(date: Date, value: F32)

  /** The file reader, as an oracle: opening the file at a path yields the
      rows the TSV reader would deserialise, each a row or an error, or
      fails to open. */
  type Opener = string -> Result<seq<Result<Row, ReadError>>, ReadError>

  /** Some graph in `gs` is named `n`. */
  predicate Named(gs: seq<Graph>, n: string) {
    exists i :: 0 <= i < |gs| && gs[i].name == n
  }

  /** The names of the graphs in `gs`. */
  function Names(gs: seq<Graph>): (ns: set<string>)
    ensures forall i :: 0 <= i < |gs| ==> gs[i].name in ns
    ensures forall n :: n in ns ==> Named(gs, n)
    decreases |gs|
  {
    if |gs| == 0 then {}
    else
      var rest := Names(gs[1..]);
      assert forall n :: n in rest ==> Named(gs, n) by {
        forall n | n in rest
          ensures Named(gs, n)
        {
          var k :| 0 <= k < |gs[1..]| && gs[1..][k].name == n;
          assert gs[k + 1].name == n;
        }
      }
      {gs[0].name} + rest
  }

  /** No two graphs share a name. */
  predicate DistinctNames(gs: seq<Graph>) {
    forall i, j :: 0 <= i < j < |gs| ==> gs[i].name != gs[j].name
  }

  /** Every entry is stored under its own graph's name. */
  predicate KeyedByName(index: map<string, Graph>) {
    forall n :: n in index ==> index[n].name == n
  }

  /** Graph `i` is the last one in `gs` named `n`. */
  predicate IsLastNamed(gs: seq<Graph>, n: string, i: int) {
    0 <= i < |gs| && gs[i].name == n &&
    forall j :: i < j < |gs| ==> gs[j].name != n
  }

  /** The position of the last graph named `n`, searching from the back */
  function LastNamed(gs: seq<Graph>, n: string): (i: nat)
    requires n in Names(gs)
    ensures IsLastNamed(gs, n, i)
    decreases |gs|
  {
    if gs[|gs| - 1].name == n then |gs| - 1
    else
      assert n in Names(gs[..|gs| - 1]) by {
        var k :| 0 <= k < |gs| && gs[k].name == n;
        assert gs[..|gs| - 1][k].name == n;
      }
      LastNamed(gs[..|gs| - 1], n)
  }

  /** No graph after graph `i` has its name. */
  predicate LastOfItsName(gs: seq<Graph>, i: int) {
    0 <= i < |gs| && forall j :: i < j < |gs| ==> gs[j].name != gs[i].name
  }

  /** The fold `acc.insert(graph.name, graph)` over `gs`, left to right */
  function FoldIndex(acc: map<string, Graph>, gs: seq<Graph>): (index: map<string, Graph>)
    requires KeyedByName(acc)
    ensures index.Keys == acc.Keys + Names(gs)
    ensures KeyedByName(index)
    ensures forall n :: n in acc && n !in Names(gs) ==> index[n] == acc[n]
    ensures forall i :: LastOfItsName(gs, i) ==> index[gs[i].name] == gs[i]
    decreases |gs|
  {
    if |gs| == 0 then acc
    else
      var rest := gs[1..];
      var index := FoldIndex(acc[gs[0].name := gs[0]], rest);
      assert forall i :: LastOfItsName(gs, i) && i > 0 ==> LastOfItsName(rest, i - 1) && rest[i - 1] == gs[i];
      assert LastOfItsName(gs, 0) ==> gs[0].name !in Names(rest);
      index
  }

  /** `INDEX`: every graph of the list under its name, the later of two
      graphs with one name overwriting the earlier */
  function BuildIndex(gs: seq<Graph>): (index: map<string, Graph>)
    ensures index.Keys == Names(gs)
    ensures forall n :: n in index ==> index[n].name == n
  {
    FoldIndex(map[], gs)
  }

  /** The index entry for every listed name is the last graph with that
      name. */
  lemma IndexHoldsLastGraph(gs: seq<Graph>, n: string)
    requires n in Names(gs)
    ensures n in BuildIndex(gs) && BuildIndex(gs)[n] == gs[LastNamed(gs, n)]
  {
    var i := LastNamed(gs, n);
    assert LastOfItsName(gs, i);
    assert FoldIndex(map[], gs)[gs[i].name] == gs[i];
  }

  /** A list whose head's name recurs in its tail has a repeated name. */
  lemma RepeatedHead(gs: seq<Graph>)
    requires |gs| > 0 && gs[0].name in Names(gs[1..])
    ensures !DistinctNames(gs)
  {
    var k :| 0 <= k < |gs[1..]| && gs[1..][k].name == gs[0].name;
    assert gs[k + 1].name == gs[0].name;
  }

  /** A list whose head's name is new has distinct names exactly when its
      tail does. */
  lemma FreshHead(gs: seq<Graph>)
    requires |gs| > 0 && gs[0].name !in Names(gs[1..])
    ensures DistinctNames(gs) <==> DistinctNames(gs[1..])
  {
    var rest := gs[1..];
    if DistinctNames(rest) {
      forall i, j | 0 <= i < j < |gs|
        ensures gs[i].name != gs[j].name
      {
        assert gs[j] == rest[j - 1];
        if i > 0 {
          assert gs[i] == rest[i - 1];
        }
      }
    }
    if DistinctNames(gs) {
      forall i, j | 0 <= i < j < |rest|
        ensures rest[i].name != rest[j].name
      {
        assert rest[i] == gs[i + 1] && rest[j] == gs[j + 1];
      }
    }
  }

  /** There are no more names than graphs, and as many exactly when the
      names are distinct. */
  lemma {:induction false} NamesCardinality(gs: seq<Graph>)
    ensures |Names(gs)| <= |gs|
    ensures |Names(gs)| == |gs| <==> DistinctNames(gs)
    decreases |gs|
  {
    if |gs| > 0 {
      NamesCardinality(gs[1..]);
      if gs[0].name in Names(gs[1..]) {
        RepeatedHead(gs);
      } else {
        FreshHead(gs);
      }
    }
  }

  /** The index has at most one entry per graph, and exactly one per graph
      when the names are distinct. */
  lemma {:induction false} IndexSize(gs: seq<Graph>)
    ensures |BuildIndex(gs)| <= |gs|
    ensures |BuildIndex(gs)| == |gs| <==> DistinctNames(gs)
  {
    NamesCardinality(gs);
    assert |BuildIndex(gs)| == |BuildIndex(gs).Keys| == |Names(gs)|;
  }

  /** The point a row becomes */
  function RowPoint(row: Row): Point {
    Point(row.date, row.value)
  }

  /** Row `k` is the first failed row of `rows`. */
  predicate IsFirstError(rows: seq<Result<Row, ReadError>>, k: int) {
    0 <= k < |rows| && rows[k].Failure? &&
    forall j :: 0 <= j < k ==> rows[j].Success?
  }

  /** The loop of `points_from_tsv`: every row becomes a point, in order,
      and the first failed row aborts the whole read with its error. */
  method PointsFromRows(rows: seq<Result<Row, ReadError>>) returns (r: Result<Points, ReadError>)
    ensures r.Success? <==> forall i :: 0 <= i < |rows| ==> rows[i].Success?
    ensures r.Success? ==>
      && |r.value| == |rows|
      && forall i :: 0 <= i < |rows| ==> r.value[i] == RowPoint(rows[i].value)
    ensures r.Failure? ==> exists k :: IsFirstError(rows, k) && rows[k].error == r.error
  {
    var points: Points := [];
    var i := 0;
    while i < |rows|
      invariant 0 <= i <= |rows|
      invariant forall j :: 0 <= j < i ==> rows[j].Success?
      invariant |points| == i
      invariant forall j :: 0 <= j < i ==> points[j] == RowPoint(rows[j].value)
    {
      var record :- rows[i];
      points := points + [RowPoint(record)];
      i := i + 1;
    }
    return Success(points);
  }

  /** The file a dataset path names: `data/<path>.tsv` */
  function DataFile(path: string): (file: string)
    ensures |file| == |path| + 9
    ensures file[..5] == "data/" && file[5..|file| - 4] == path && file[|file| - 4..] == ".tsv"
  {
    "data/" + path + ".tsv"
  }

  /** Every row of `rows` parsed. */
  predicate AllParsed(rows: seq<Result<Row, ReadError>>) {
    forall i :: 0 <= i < |rows| ==> rows[i].Success?
  }

  /** The position of the first failed row, searching from the front */
  function FirstFailure(rows: seq<Result<Row, ReadError>>): (k: nat)
    requires !AllParsed(rows)
    ensures IsFirstError(rows, k)
    decreases |rows|
  {
    if rows[0].Failure? then 0
    else
      assert !AllParsed(rows[1..]) by {
        var i :| 0 <= i < |rows| && rows[i].Failure?;
        assert rows[1..][i - 1] == rows[i];
      }
      var k := FirstFailure(rows[1..]);
      assert forall j :: 1 <= j <= k ==> rows[j] == rows[1..][j - 1];
      1 + k
  }

  /** What reading a data file yields, stated without a loop: the open
      error; or, once the file opens, every row's point in row order when
      all rows parsed, and otherwise the first failed row's error. */
  function TsvPoints(open: Opener, path: string): (r: Result<Points, ReadError>)
    ensures open(DataFile(path)).Failure? ==> r == Failure(open(DataFile(path)).error)
    ensures open(DataFile(path)).Success? ==>
      var rows := open(DataFile(path)).value;
      && (r.Success? <==> AllParsed(rows))
      && (r.Success? ==>
            |r.value| == |rows| && forall i :: 0 <= i < |rows| ==> r.value[i] == RowPoint(rows[i].value))
      && (r.Failure? ==> IsFirstError(rows, FirstFailure(rows)) && r.error == rows[FirstFailure(rows)].error)
  {
    match open(DataFile(path))
    case Failure(e) => Failure(e)
    case Success(rows) =>
      if AllParsed(rows) then Success(seq(|rows|, i requires 0 <= i < |rows| => RowPoint(rows[i].value)))
      else Failure(rows[FirstFailure(rows)].error)
  }

  /** `points_from_tsv`: a file that will not open fails before any row is
      read; otherwise its rows are converted by the loop `PointsFromRows`,
      which yields what `TsvPoints` states. */
  method PointsFromTsv(open: Opener, path: string) returns (r: Result<Points, ReadError>)
    ensures open(DataFile(path)).Failure? ==> r == Failure(open(DataFile(path)).error)
    ensures open(DataFile(path)).Success? ==>
      var rows := open(DataFile(path)).value;
      && (r.Success? <==> forall i :: 0 <= i < |rows| ==> rows[i].Success?)
      && (r.Success? ==>
            |r.value| == |rows| && forall i :: 0 <= i < |rows| ==> r.value[i] == RowPoint(rows[i].value))
      && (r.Failure? ==> r.error == rows[FirstFailure(rows)].error)
    ensures r == TsvPoints(open, path)
  {
    var rows :- open(DataFile(path));
    r := PointsFromRows(rows);
    if r.Failure? {
      var k :| IsFirstError(rows, k) && rows[k].error == r.error;
      assert k == FirstFailure(rows);
    } else {
      assert r.value == TsvPoints(open, path).value;
    }
  }

  const CsiroDescription: string :=
    "Change in sea level in millimeters compared to the 1993-2008 average from the sea level group of CSIRO (Commonwealth Scientific and Industrial Research Organisation), Australia's national science agency. It is based on the paper Church, J. A., & White, N. J. (2011). Sea-Level Rise from the Late 19th to the Early 21st Century. Surveys in Geophysics, 32(4), 585\U{D0}602. https://doi.org/10.1007/s10712-011-9119-1."

  const UhslcDescription: string :=
    "Change in sea level in millimeters compared to the 1993-2008 average from the University of Hawaii Sea Level Center (http://uhslc.soest.hawaii.edu/data/?fd). It is based on a weighted average of 373 global tide gauge records collected by the U.S. National Ocean Service, UHSLC, and partner agencies worldwide."

  /** `GRAPHS`: the two sea-level series, CSIRO first. A series that fails
      to load makes its `unwrap` panic, reported here as that series' error;
      CSIRO is loaded first, so its failure is the one reported when both
      fail. */
  method LoadGraphs(open: Opener) returns (r: Result<seq<Graph>, ReadError>)
    ensures r.Success? <==>
      TsvPoints(open, "sealevel/csiro").Success? && TsvPoints(open, "sealevel/uhslc").Success?
    ensures r.Success? ==> r.value == [
      Graph("CSIRO", CsiroDescription, (0xB1, 0xF8, 0xF2), TsvPoints(open, "sealevel/csiro").value),
      Graph("UHSLC", UhslcDescription, (0xBC, 0xD3, 0x9C), TsvPoints(open, "sealevel/uhslc").value)]
    ensures r.Success? ==> BuildIndex(r.value).Keys == {"CSIRO", "UHSLC"}
    ensures TsvPoints(open, "sealevel/csiro").Failure? ==>
      r == Failure(TsvPoints(open, "sealevel/csiro").error)
    ensures TsvPoints(open, "sealevel/csiro").Success? && TsvPoints(open, "sealevel/uhslc").Failure? ==>
      r == Failure(TsvPoints(open, "sealevel/uhslc").error)
  {
    var csiro :- PointsFromTsv(open, "sealevel/csiro");
    var uhslc :- PointsFromTsv(open, "sealevel/uhslc");
    var gs := [
      Graph("CSIRO", CsiroDescription, (0xB1, 0xF8, 0xF2), csiro),
      Graph("UHSLC", UhslcDescription, (0xBC, 0xD3, 0x9C), uhslc)
    ];
    assert Names(gs) == {"CSIRO", "UHSLC"} by {
      assert gs[0].name == "CSIRO" && gs[1].name == "UHSLC";
    }
    return Success(gs);
  }
}
