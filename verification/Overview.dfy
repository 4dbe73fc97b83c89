/**
  The backlog region of `apps/ui/src/board/Overview.tsx`: rows bucketed by their group path. A JavaScript
  `Map` is its entries in insertion order.
 */
module Overview {
  import opened Lists
  import opened Wrappers

  datatype Row = Row(ref: string, backlog: Option<string>)

  datatype Bucket = Bucket(path: string, rows: seq<Row>)

  function PathOf(row: Row): string {
    if row.backlog.Some? then row.backlog.value else ""
  }

  function InGroup(rows: seq<Row>, path: string): seq<Row> {
    Filter(rows, (r: Row) => PathOf(r) == path)
  }

  // `path` first appears at `i`.
  ghost predicate FirstAt(rows: seq<Row>, path: string, i: int) {
    0 <= i < |rows| && PathOf(rows[i]) == path && forall j :: 0 <= j < i ==> PathOf(rows[j]) != path
  }

  ghost predicate AppearsBefore(rows: seq<Row>, p: string, q: string) {
    exists i, j :: i < j && FirstAt(rows, p, i) && FirstAt(rows, q, j)
  }

  ghost predicate HoldsItsRows(rows: seq<Row>, g: Bucket) {
    g.rows == InGroup(rows, g.path)
  }

  ghost predicate Appears(rows: seq<Row>, path: string) {
    path != "" && exists k :: FirstAt(rows, path, k)
  }

  ghost predicate HasBucket(groups: seq<Bucket>, path: string) {
    exists i :: 0 <= i < |groups| && groups[i].path == path
  }

  // The root bucket first, then one for each other path in the order of first appearance, each with its
  // rows in wire order.
  ghost predicate IsBucketing(rows: seq<Row>, groups: seq<Bucket>) {
    && groups != [] && groups[0].path == ""
    && (forall i :: 0 <= i < |groups| ==> HoldsItsRows(rows, groups[i]))
    && (forall i :: 0 < i < |groups| ==> Appears(rows, groups[i].path))
    && (forall i, j :: 0 < i < j < |groups| ==> AppearsBefore(rows, groups[i].path, groups[j].path))
    && (forall r <- rows :: HasBucket(groups, PathOf(r)))
  }

  // The entries of the map are looked up by path.
  function IndexOf(groups: seq<Bucket>, path: string): (r: int)
    ensures r < 0 ==> forall i :: 0 <= i < |groups| ==> groups[i].path != path
    ensures 0 <= r ==> r < |groups| && groups[r].path == path
  {
    if groups == [] then -1
    else if groups[|groups| - 1].path == path then |groups| - 1
    else IndexOf(groups[..|groups| - 1], path)
  }

  method Buckets(rows: seq<Row>) returns (groups: seq<Bucket>)
    ensures IsBucketing(rows, groups)
  {
    hide IsBucketing, PathOf, IndexOf;
    RootIsThere();
    assert rows[..0] == [];
    groups := [Bucket("", [])];
    for k := 0 to |rows|
      invariant IsBucketing(rows[..k], groups)
    {
      var row, path := rows[k], PathOf(rows[k]);
      assert rows[..k + 1] == rows[..k] + [row];
      var at := IndexOf(groups, path);
      if at < 0 {
        RowOpens(rows[..k], row, groups);
        OpenThenJoin(groups, path, row);
        at, groups := |groups|, groups + [Bucket(path, [])];
      } else {
        RowJoins(rows[..k], row, groups, at);
      }
      groups := groups[at := Bucket(path, groups[at].rows + [row])];
    }
    assert rows[..|rows|] == rows;
  }

  lemma RootIsThere()
    ensures IsBucketing([], [Bucket("", [])])
  {
  }

  lemma OpenThenJoin(groups: seq<Bucket>, path: string, row: Row)
    ensures var wider := groups + [Bucket(path, [])];
      wider[|groups| := Bucket(path, wider[|groups|].rows + [row])] == groups + [Bucket(path, [row])]
  {
    assert [] + [row] == [row];
  }

  lemma InGroupSnoc(rows: seq<Row>, row: Row, path: string)
    ensures InGroup(rows + [row], path) == InGroup(rows, path) + if PathOf(row) == path then [row] else []
  {
    FilterConcat(rows, [row], (r: Row) => PathOf(r) == path);
  }

  lemma FirstStays(rows: seq<Row>, row: Row, path: string, k: int)
    requires FirstAt(rows, path, k)
    ensures FirstAt(rows + [row], path, k)
  {
  }

  lemma OrderStays(rows: seq<Row>, row: Row, p: string, q: string)
    requires AppearsBefore(rows, p, q)
    ensures AppearsBefore(rows + [row], p, q)
  {
    var i, j :| i < j && FirstAt(rows, p, i) && FirstAt(rows, q, j);
    FirstStays(rows, row, p, i);
    FirstStays(rows, row, q, j);
  }

  lemma NotBeforeItself(rows: seq<Row>, path: string)
    ensures !AppearsBefore(rows, path, path)
  {
  }

  lemma DistinctPaths(rows: seq<Row>, groups: seq<Bucket>, i: nat, j: nat)
    requires IsBucketing(rows, groups) && i < j < |groups|
    ensures groups[i].path != groups[j].path
  {
    hide HoldsItsRows, AppearsBefore, HasBucket;
    NotBeforeItself(rows, groups[i].path);
    assert Appears(rows, groups[j].path);
  }

  lemma AppearsStays(rows: seq<Row>, row: Row, path: string)
    requires Appears(rows, path)
    ensures Appears(rows + [row], path)
  {
    var k :| FirstAt(rows, path, k);
    FirstStays(rows, row, path, k);
  }

  lemma HoldsStays(rows: seq<Row>, row: Row, g: Bucket)
    requires HoldsItsRows(rows, g)
    ensures HoldsItsRows(rows + [row], Bucket(g.path, g.rows + if PathOf(row) == g.path then [row] else []))
    ensures PathOf(row) != g.path ==> HoldsItsRows(rows + [row], g)
  {
    InGroupSnoc(rows, row, g.path);
    assert g.rows + [] == g.rows;
  }

  lemma CoversStays(rows: seq<Row>, row: Row, groups: seq<Bucket>, after: seq<Bucket>, at: nat)
    requires forall r <- rows :: HasBucket(groups, PathOf(r))
    requires |groups| <= |after| && at < |after| && after[at].path == PathOf(row)
    requires forall i :: 0 <= i < |groups| ==> after[i].path == groups[i].path
    ensures forall r <- rows + [row] :: HasBucket(after, PathOf(r))
  {
    forall r | r in rows + [row] ensures HasBucket(after, PathOf(r)) {
      if r in rows {
        assert HasBucket(groups, PathOf(r));
        var i :| 0 <= i < |groups| && groups[i].path == PathOf(r);
        assert after[i].path == PathOf(r);
      }
    }
  }

  // A row whose path has a bucket joins it, last.
  lemma RowJoins(rows: seq<Row>, row: Row, groups: seq<Bucket>, at: nat)
    requires IsBucketing(rows, groups) && at < |groups| && groups[at].path == PathOf(row)
    ensures IsBucketing(rows + [row], groups[at := Bucket(PathOf(row), groups[at].rows + [row])])
  {
    hide HoldsItsRows, Appears, AppearsBefore, HasBucket, PathOf;
    var after, all := groups[at := Bucket(PathOf(row), groups[at].rows + [row])], rows + [row];
    assert forall i :: 0 <= i < |groups| ==> after[i].path == groups[i].path;
    forall i: nat | i < |after| ensures HoldsItsRows(all, after[i]) {
      HoldsStays(rows, row, groups[i]);
      if i < at { DistinctPaths(rows, groups, i, at); }
      if at < i { DistinctPaths(rows, groups, at, i); }
    }
    forall i | 0 < i < |after| ensures Appears(all, after[i].path) { AppearsStays(rows, row, groups[i].path); }
    forall i, j | 0 < i < j < |after| ensures AppearsBefore(all, after[i].path, after[j].path) {
      OrderStays(rows, row, groups[i].path, groups[j].path);
    }
    CoversStays(rows, row, groups, after, at);
  }

  // A row with a new path opens a bucket, after all the others.
  lemma RowOpens(rows: seq<Row>, row: Row, groups: seq<Bucket>)
    requires IsBucketing(rows, groups) && forall i :: 0 <= i < |groups| ==> groups[i].path != PathOf(row)
    ensures IsBucketing(rows + [row], groups + [Bucket(PathOf(row), [row])])
  {
    var n, all, after := |groups|, rows + [row], groups + [Bucket(PathOf(row), [row])];
    NewPath(rows, row, groups);
    hide HoldsItsRows, Appears, AppearsBefore, HasBucket, PathOf;
    assert forall i :: 0 <= i < n ==> after[i] == groups[i];
    forall i | 0 <= i < n ensures HoldsItsRows(all, after[i]) { HoldsStays(rows, row, groups[i]); }
    forall i | 0 < i < n ensures Appears(all, after[i].path) { AppearsStays(rows, row, groups[i].path); }
    forall i, j | 0 < i < j < |after| ensures AppearsBefore(all, after[i].path, after[j].path) {
      if j < n { OrderStays(rows, row, groups[i].path, groups[j].path); } else { LaterThan(rows, row, groups[i].path); }
    }
    CoversStays(rows, row, groups, after, n);
  }

  lemma NewPath(rows: seq<Row>, row: Row, groups: seq<Bucket>)
    requires IsBucketing(rows, groups) && forall i :: 0 <= i < |groups| ==> groups[i].path != PathOf(row)
    ensures FirstAt(rows + [row], PathOf(row), |rows|)
    ensures Appears(rows + [row], PathOf(row))
    ensures HoldsItsRows(rows + [row], Bucket(PathOf(row), [row]))
  {
    hide HoldsItsRows, Appears, AppearsBefore;
    var path := PathOf(row);
    assert groups[0].path != path;
    forall j | 0 <= j < |rows| ensures PathOf(rows[j]) != path {
      assert rows[j] in rows && HasBucket(groups, PathOf(rows[j]));
    }
    FreshPath(rows, row);
  }

  lemma FreshPath(rows: seq<Row>, row: Row)
    requires PathOf(row) != "" && forall j :: 0 <= j < |rows| ==> PathOf(rows[j]) != PathOf(row)
    ensures FirstAt(rows + [row], PathOf(row), |rows|)
    ensures Appears(rows + [row], PathOf(row))
    ensures HoldsItsRows(rows + [row], Bucket(PathOf(row), [row]))
  {
    var path := PathOf(row);
    assert FirstAt(rows + [row], path, |rows|);
    InGroupSnoc(rows, row, path);
    if InGroup(rows, path) != [] { FilterMember(rows, (r: Row) => PathOf(r) == path, InGroup(rows, path)[0]); }
  }

  lemma LaterThan(rows: seq<Row>, row: Row, path: string)
    requires Appears(rows, path) && FirstAt(rows + [row], PathOf(row), |rows|)
    ensures AppearsBefore(rows + [row], path, PathOf(row))
  {
    var k :| FirstAt(rows, path, k);
    FirstStays(rows, row, path, k);
  }

  // ---- nothing is lost ----

  function Flatten(groups: seq<Bucket>): seq<Row> {
    if groups == [] then [] else groups[0].rows + Flatten(groups[1..])
  }

  lemma {:induction false} FlattenCount(rows: seq<Row>, groups: seq<Bucket>, x: Row)
    requires forall i :: 0 <= i < |groups| ==> groups[i].rows == InGroup(rows, groups[i].path)
    requires forall i, j :: 0 <= i < j < |groups| ==> groups[i].path != groups[j].path
    ensures multiset(Flatten(groups))[x] == if HasBucket(groups, PathOf(x)) then multiset(rows)[x] else 0
  {
    if groups != [] {
      var rest := groups[1..];
      assert forall i :: 0 <= i < |rest| ==> rest[i] == groups[i + 1];
      FlattenCount(rows, rest, x);
      FilterCount(rows, (r: Row) => PathOf(r) == groups[0].path, x);
      assert multiset(Flatten(groups)) == multiset(groups[0].rows) + multiset(Flatten(rest));
      if i :| 0 <= i < |rest| && rest[i].path == PathOf(x) { assert groups[i + 1].path == PathOf(x); }
      if i :| 0 < i < |groups| && groups[i].path == PathOf(x) { assert rest[i - 1].path == PathOf(x); }
    }
  }

  // What a bucket's path says of its rows: it is theirs, and the root's have an empty one or none.
  lemma PathsAreTheirs(rows: seq<Row>, groups: seq<Bucket>, i: nat, r: Row)
    requires IsBucketing(rows, groups) && i < |groups| && r in groups[i].rows
    ensures r in rows
    ensures r.backlog == Some(groups[i].path) || (r.backlog == None && groups[i].path == "")
    ensures i == 0 <==> r.backlog == None || r.backlog == Some("")
  {
    assert HoldsItsRows(rows, groups[i]);
    FilterMember(rows, (x: Row) => PathOf(x) == groups[i].path, r);
    if i > 0 { assert Appears(rows, groups[i].path); }
  }

  // The buckets hold every row once: together they are the rows, rearranged.
  lemma BucketsPermuteTheRows(rows: seq<Row>, groups: seq<Bucket>)
    requires IsBucketing(rows, groups)
    ensures multiset(Flatten(groups)) == multiset(rows)
  {
    hide InGroup, FirstAt, AppearsBefore, Appears;
    forall i: nat, j: nat | i < j < |groups| ensures groups[i].path != groups[j].path {
      DistinctPaths(rows, groups, i, j);
    }
    forall x ensures multiset(Flatten(groups))[x] == multiset(rows)[x] {
      FlattenCount(rows, groups, x);
      assert x in multiset(rows) ==> x in rows;
      assert x in rows ==> HasBucket(groups, PathOf(x));
    }
  }
}
