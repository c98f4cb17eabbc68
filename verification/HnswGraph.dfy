// What becomes of a navigable graph on the way to a file: each node's neighbours are
// sorted, cut to 2m and written as deltas. Sorting before cutting drops the largest
// ids, so a graph survives only if its lists fit -- which the sizes the segment writer
// picks do not always guarantee.
module HnswGraph {
  import opened Bits
  import opened Wire
  import opened Navigable

  // ----- one node's blob --------------------------------------------------------------

  function Without(l: seq<nat>, u: nat): seq<nat> {
    if l == [] then [] else Without(l[..|l| - 1], u) + if l[|l| - 1] != u then [l[|l| - 1]] else []
  }

  function Enter(s: seq<nat>, x: nat): seq<nat> {
    if s == [] || x < s[0] then [x] + s else if x == s[0] then s else [s[0]] + Enter(s[1..], x)
  }

  // Sorted, without duplicates.
  function Ordered(l: seq<nat>): seq<nat> {
    if l == [] then [] else Enter(Ordered(l[..|l| - 1]), l[|l| - 1])
  }

  predicate OutOfRange(l: seq<nat>, count: nat) { exists i :: 0 <= i < |l| && l[i] >= count }

  function Blob(node: nat, nbrs: seq<nat>, count: nat, max: nat): Result<seq<nat>> {
    var sorted := Ordered(Without(nbrs, node));
    if OutOfRange(sorted, count) then Err(Invalid) else Ok(Cut(sorted, max))
  }

  // The first id as it is, the others as the distance from the one before.
  function Deltas(ids: seq<nat>): seq<int> {
    seq<int>(|ids|, i requires 0 <= i < |ids| => DeltaAt(ids, i))
  }

  function DeltaAt(ids: seq<nat>, i: nat): int
    requires i < |ids|
  {
    var x: int := ids[i];
    if i == 0 then x else x - ids[i - 1]
  }

  // A reader adds them up.
  function Ids(deltas: seq<int>): (ids: seq<int>)
    ensures |ids| == |deltas|
  {
    if deltas == [] then []
    else
      var before := Ids(deltas[..|deltas| - 1]);
      before + [deltas[|deltas| - 1] + if before == [] then 0 else before[|before| - 1]]
  }

  method WriteNeighborBlob(node: nat, nbrs: seq<nat>, count: nat, max: nat) returns (r: Result<seq<int>>)
    ensures r.Ok? <==> Blob(node, nbrs, count, max).Ok?
    ensures r.Ok? ==> r.value == Deltas(Blob(node, nbrs, count, max).value)
  {
    var sorted := Ordered(Without(nbrs, node));
    if OutOfRange(sorted, count) {
      return Err(Invalid);
    }
    OrderedIs(Without(nbrs, node));
    sorted := Cut(sorted, max);
    var deltas: seq<int> := [];
    var prev := 0;
    var i := 0;
    while i < |sorted|
      invariant i <= |sorted| && deltas == Deltas(sorted)[..i]
      invariant i > 0 ==> prev == sorted[i - 1]
    {
      var x := sorted[i];
      var delta: nat := if i == 0 then x else x - prev;  // never underflows: the ids ascend
      deltas := deltas + [delta];
      prev := x;
      i := i + 1;
    }
    return Ok(deltas);
  }

  lemma {:induction false} DeltasRoundTrip(ids: seq<nat>)
    ensures Ids(Deltas(ids)) == ids
    decreases |ids|
  {
    if ids != [] {
      var most := ids[..|ids| - 1];
      DeltasRoundTrip(most);
      assert Deltas(ids)[..|ids| - 1] == Deltas(most);
      assert ids == most + [ids[|ids| - 1]];
    }
  }

  lemma {:induction false} WithoutIs(l: seq<nat>, u: nat)
    ensures forall x :: x in Without(l, u) <==> x in l && x != u
    ensures u !in l ==> Without(l, u) == l
  {
    if l != [] {
      assert l == l[..|l| - 1] + [l[|l| - 1]];
      WithoutIs(l[..|l| - 1], u);
    }
  }

  lemma {:induction false} EnterHas(s: seq<nat>, x: nat)
    ensures forall y :: y in Enter(s, x) <==> y == x || y in s
  {
    if s != [] {
      assert s == [s[0]] + s[1..];
      EnterHas(s[1..], x);
    }
  }

  lemma {:induction false} EnterIs(s: seq<nat>, x: nat)
    requires Ascending(s)
    ensures Ascending(Enter(s, x)) && (x !in s ==> |Enter(s, x)| == |s| + 1)
  {
    EnterHas(s, x);
    if s != [] && x > s[0] {
      EnterIs(s[1..], x);
      EnterHas(s[1..], x);
      var r := Enter(s[1..], x);
      forall j | 0 <= j < |r| ensures s[0] < r[j] {
        assert r[j] in r;
      }
    }
  }

  lemma {:induction false} OrderedIs(l: seq<nat>)
    ensures Ascending(Ordered(l)) && (forall x :: x in Ordered(l) <==> x in l)
    ensures NoRepeats(l) ==> |Ordered(l)| == |l|
  {
    if l != [] {
      OrderedIs(l[..|l| - 1]);
      EnterIs(Ordered(l[..|l| - 1]), l[|l| - 1]);
      EnterHas(Ordered(l[..|l| - 1]), l[|l| - 1]);
      assert l == l[..|l| - 1] + [l[|l| - 1]];
      assert NoRepeats(l) ==> l[|l| - 1] !in l[..|l| - 1];
    }
  }

  // The ids written for a clean list: all of it when it fits, and otherwise not.
  lemma BlobKeeps(node: nat, nbrs: seq<nat>, count: nat, max: nat)
    requires CleanList(nbrs, count, node)
    ensures Blob(node, nbrs, count, max).Ok?
    ensures var ids := Blob(node, nbrs, count, max).value;
            Ascending(ids) && (forall x :: x in ids ==> x in nbrs) && ((forall x :: x in nbrs ==> x in ids) <==> |nbrs| <= max)
  {
    var sorted := Ordered(nbrs);
    WithoutIs(nbrs, node);
    OrderedIs(nbrs);
    assert forall i :: 0 <= i < |sorted| ==> sorted[i] in sorted;
    var ids := Cut(sorted, max);
    if |nbrs| > max {
      assert sorted[max] in nbrs;
    }
  }

  // Of any neighbours: it fails on an id out of range, and otherwise writes the smallest ones in
  // order, each once and without the node itself, as many as there is room for.
  lemma BlobMeaning(node: nat, nbrs: seq<nat>, count: nat, max: nat, x: nat)
    ensures Blob(node, nbrs, count, max).Err? <==> exists y :: y in nbrs && y != node && y >= count
    ensures Blob(node, nbrs, count, max).Ok? ==>
              var ids := Blob(node, nbrs, count, max).value;
              && Ascending(ids) && |ids| <= max && (x in ids ==> x in nbrs && x != node)
              && (x in nbrs && x != node && x !in ids ==> |ids| == max && forall y :: y in ids ==> y < x)
  {
    hide Cut, Ordered, Without;
    var rest := Without(nbrs, node);
    var sorted := Ordered(rest);
    WithoutIs(nbrs, node);
    OrderedIs(rest);
    SmallestKept(sorted, max, x);
    if OutOfRange(sorted, count) {
      var i :| 0 <= i < |sorted| && sorted[i] >= count;
      assert sorted[i] in sorted;
    }
    if y :| y in nbrs && y != node && y >= count {
      assert y in sorted;
    }
  }

  lemma SmallestKept(sorted: seq<nat>, max: nat, x: nat)
    requires Ascending(sorted)
    ensures var ids := Cut(sorted, max);
            && Ascending(ids) && |ids| <= max && (x in ids ==> x in sorted)
            && (x in sorted && x !in ids ==> |ids| == max && forall y :: y in ids ==> y < x)
  {
    var ids := Cut(sorted, max);
    assert forall i :: 0 <= i < |ids| ==> sorted[i] in ids;
    if x in sorted && x !in ids {
      var j :| 0 <= j < |sorted| && sorted[j] == x;
      assert forall i :: 0 <= i < |ids| ==> ids[i] == sorted[i] < sorted[j];
    }
  }

  // ----- a level of a graph ------------------------------------------------------------

  // Node by node; the first neighbour out of range fails the whole graph.
  function Level(adj: Graph, max: nat, u: nat): Result<Graph>
    requires u <= |adj|
  {
    if u == 0 then Ok([])
    else
      var before := Level(adj, max, u - 1);
      var ids := Blob(u - 1, adj[u - 1], |adj|, max);
      if before.Err? then before else if ids.Err? then Err(ids.error) else Ok(before.value + [ids.value])
  }

  // Level 0 keeps up to 2m neighbours a node.
  function Serialized(adj: Graph, m: nat): Result<Graph> { Level(adj, 2 * m, |adj|) }

  method WriteLevel(adj: Graph, m: nat) returns (r: Result<seq<seq<int>>>)
    ensures r.Ok? <==> Serialized(adj, m).Ok?
    ensures r.Ok? ==> |r.value| == |adj| == |Serialized(adj, m).value| &&
                      forall u :: 0 <= u < |adj| ==> r.value[u] == Deltas(Serialized(adj, m).value[u])
  {
    hide Blob, Deltas;
    var blobs: seq<seq<int>> := [];
    var u := 0;
    while u < |adj|
      invariant u <= |adj| && Level(adj, 2 * m, u).Ok? && |Level(adj, 2 * m, u).value| == |blobs| == u
      invariant forall v :: 0 <= v < u ==> blobs[v] == Deltas(Level(adj, 2 * m, u).value[v])
    {
      var blob := WriteNeighborBlob(u, adj[u], |adj|, 2 * m);
      if blob.Err? {
        LevelFails(adj, 2 * m, u + 1, |adj|);
        return Err(blob.error);
      }
      blobs := blobs + [blob.value];
      u := u + 1;
    }
    return Ok(blobs);
  }

  lemma {:induction false} LevelFails(adj: Graph, max: nat, u: nat, n: nat)
    requires u <= n <= |adj| && Level(adj, max, u).Err?
    ensures Level(adj, max, n).Err?
    decreases n
  {
    if u < n {
      LevelFails(adj, max, u, n - 1);
    }
  }

  lemma {:induction false} LevelAt(adj: Graph, max: nat, u: nat)
    requires u <= |adj| && forall v: nat :: v < u ==> Blob(v, adj[v], |adj|, max).Ok?
    ensures Level(adj, max, u).Ok? && |Level(adj, max, u).value| == u
    ensures forall v: nat :: v < u ==> Level(adj, max, u).value[v] == Blob(v, adj[v], |adj|, max).value
  {
    hide Blob;
    if u > 0 {
      LevelAt(adj, max, u - 1);
    }
  }

  ghost predicate SameEdges(a: Graph, b: Graph) {
    |a| == |b| && forall u: nat, v: nat :: Edge(a, u, v) <==> Edge(b, u, v)
  }

  // A clean graph keeps its edges exactly when no list is longer than 2m.
  lemma SerializedKeeps(adj: Graph, cap: nat, m: nat)
    requires Clean(adj, cap)
    ensures Serialized(adj, m).Ok?
    ensures SameEdges(adj, Serialized(adj, m).value) <==> forall u: nat :: u < |adj| ==> |adj[u]| <= 2 * m
  {
    hide Blob, CleanList;
    forall u: nat | u < |adj| ensures Blob(u, adj[u], |adj|, 2 * m).Ok? {
      BlobKeeps(u, adj[u], |adj|, 2 * m);
    }
    LevelAt(adj, 2 * m, |adj|);
    var ser := Serialized(adj, m).value;
    if forall u: nat :: u < |adj| ==> |adj[u]| <= 2 * m {
      forall u: nat, v: nat ensures Edge(adj, u, v) <==> Edge(ser, u, v) {
        if u < |adj| {
          BlobKeeps(u, adj[u], |adj|, 2 * m);
        }
      }
    } else {
      var u: nat :| u < |adj| && |adj[u]| > 2 * m;
      BlobKeeps(u, adj[u], |adj|, 2 * m);
      var v: nat :| v in adj[u] && v !in ser[u];
      assert Edge(adj, u, v) && !Edge(ser, u, v);
    }
  }

  lemma {:induction false} SameReach(a: Graph, b: Graph, u: nat, v: nat, steps: nat)
    requires SameEdges(a, b) && ReachIn(a, u, v, steps)
    ensures ReachIn(b, u, v, steps)
    decreases steps
  {
    if steps > 0 {
      var w: nat :| Edge(a, u, w) && ReachIn(a, w, v, steps - 1);
      SameReach(a, b, w, v, steps - 1);
    }
  }

  lemma SameConnected(a: Graph, b: Graph)
    requires SameEdges(a, b) && StronglyConnected(a)
    ensures StronglyConnected(b)
  {
    forall u: nat, v: nat | u < |b| && v < |b| ensures Reach(b, u, v) {
      assert Reach(a, u, v);
      var steps: nat :| ReachIn(a, u, v, steps);
      SameReach(a, b, u, v, steps);
    }
  }

  // With 2m >= cap the file holds a navigable graph with the same edges.
  lemma NavigableSurvives(graph: seq<nat>, n: nat, degree: nat, cap: nat, m: nat)
    requires n >= 2 && cap >= 1 && InRange(graph, n) && 2 * m >= cap
    ensures Serialized(Lists(graph, n, degree, cap), m).Ok?
    ensures SameEdges(Lists(graph, n, degree, cap), Serialized(Lists(graph, n, degree, cap), m).value)
    ensures StronglyConnected(Serialized(Lists(graph, n, degree, cap), m).value)
  {
    hide List, Serialized, StronglyConnected, SameEdges, CleanList;
    var adj := Lists(graph, n, degree, cap);
    ListsNavigable(graph, n, degree, cap);
    SerializedKeeps(adj, cap, m);
    SameConnected(adj, Serialized(adj, m).value);
  }

  // ----- the graph of a small segment -------------------------------------------------------

  // The order of the distances from one node: total_cmp makes it total.
  type Distances = seq<int>

  function Key(dist: Distances, j: nat): int { if j < |dist| then dist[j] else 0 }

  // A stable sort: j goes behind everything at most as far.
  function SortIn(l: seq<nat>, dist: Distances, j: nat): seq<nat> {
    if l == [] || Key(dist, l[|l| - 1]) <= Key(dist, j) then l + [j]
    else SortIn(l[..|l| - 1], dist, j) + [l[|l| - 1]]
  }

  // The nodes below n other than i, nearest first.
  function Ranked(dist: Distances, i: nat, n: nat): seq<nat> {
    if n == 0 then []
    else if n - 1 == i then Ranked(dist, i, n - 1)
    else SortIn(Ranked(dist, i, n - 1), dist, n - 1)
  }

  function Degree(n: nat): nat { if n >= 33 then 32 else if n >= 2 then n - 1 else 1 }

  // max(2, degree) and max(1, degree / 2).
  function CapOf(n: nat): nat { if Degree(n) >= 2 then Degree(n) else 2 }
  function MOf(n: nat): nat { if Degree(n) / 2 >= 1 then Degree(n) / 2 else 1 }

  function Nearest(dist: seq<Distances>, i: nat, n: nat): seq<nat> {
    Cut(Ranked(if i < |dist| then dist[i] else [], i, n), Degree(n))
  }

  function Rows(dist: seq<Distances>, n: nat, k: nat): seq<seq<nat>> {
    seq(k, i requires 0 <= i < k => Nearest(dist, i, n))
  }

  function Flat(rows: seq<seq<nat>>): seq<nat> {
    if rows == [] then [] else Flat(rows[..|rows| - 1]) + rows[|rows| - 1]
  }

  ghost predicate AllLong(rows: seq<seq<nat>>, degree: nat) { forall i :: 0 <= i < |rows| ==> |rows[i]| == degree }

  // The graph handed to the file writer for n <= 4096 vectors.
  ghost function Level0(dist: seq<Distances>, n: nat): Graph {
    if n > 0 && AllLong(Rows(dist, n, n), Degree(n)) then Lists(Flat(Rows(dist, n, n)), n, Degree(n), CapOf(n))
    else Rows(dist, n, n)
  }

  method BuildGraph(dist: seq<Distances>, n: nat) returns (level0: Graph, m: nat)
    requires n <= 4096
    ensures level0 == Level0(dist, n) && (n > 0 ==> m == MOf(n))
  {
    hide Nearest, Lists, AllLong, Flat, Strays;
    if n == 0 {
      return [], 1;
    }
    LongNone(Degree(n));
    var degree := Degree(n);
    var rows: seq<seq<nat>> := [];
    var long := true;
    while |rows| < n
      invariant |rows| <= n && rows == Rows(dist, n, |rows|) && (long <==> AllLong(rows, degree))
    {
      var row := Nearest(dist, |rows|, n);
      LongMore(rows, row, degree);
      long := long && |row| == degree;
      rows := rows + [row];
    }
    m := MOf(n);
    if long {
      FlatLength(rows, degree);
      FullMatrix(Flat(rows), n, degree);
      var neighbors := NavigableFromKnn(Flat(rows), n, degree, CapOf(n));
      level0 := neighbors.value;
      assert level0 == Lists(Flat(rows), n, degree, CapOf(n));
    } else {
      level0 := rows;
    }
  }

  lemma LongNone(degree: nat)
    ensures AllLong([], degree)
  {
  }

  lemma LongMore(rows: seq<seq<nat>>, row: seq<nat>, degree: nat)
    ensures AllLong(rows + [row], degree) <==> AllLong(rows, degree) && |row| == degree
  {
    assert (rows + [row])[|rows|] == row;
    if AllLong(rows + [row], degree) {
      forall i | 0 <= i < |rows| ensures |rows[i]| == degree {
        assert (rows + [row])[i] == rows[i];
      }
    }
  }

  lemma {:induction false} FlatLength(rows: seq<seq<nat>>, degree: nat)
    requires AllLong(rows, degree)
    ensures |Flat(rows)| == Span(degree, |rows|)
    decreases |rows|
  {
    if rows != [] {
      FlatLength(rows[..|rows| - 1], degree);
    }
  }

  lemma {:induction false} FlatRow(rows: seq<seq<nat>>, degree: nat, u: nat)
    requires AllLong(rows, degree) && u < |rows|
    ensures Row(Flat(rows), degree, u) == rows[u]
    decreases |rows|
  {
    var most := rows[..|rows| - 1];
    FlatLength(most, degree);
    FlatLength(rows, degree);
    if u < |most| {
      FlatRow(most, degree, u);
      SpanUpTo(degree, u, |most|);
    }
  }

  lemma {:induction false} SortInIs(l: seq<nat>, dist: Distances, j: nat)
    ensures |SortIn(l, dist, j)| == |l| + 1 && forall x :: x in SortIn(l, dist, j) <==> x == j || x in l
    ensures NoRepeats(l) && j !in l ==> NoRepeats(SortIn(l, dist, j))
    decreases |l|
  {
    if l != [] {
      assert l == l[..|l| - 1] + [l[|l| - 1]];
      SortInIs(l[..|l| - 1], dist, j);
      assert NoRepeats(l) ==> l[|l| - 1] !in l[..|l| - 1];
    }
  }

  // Every other node once.
  lemma {:induction false} RankedIs(dist: Distances, i: nat, n: nat)
    ensures NoRepeats(Ranked(dist, i, n)) && forall x: nat :: x in Ranked(dist, i, n) <==> x < n && x != i
    ensures |Ranked(dist, i, n)| == if i < n then n - 1 else n
  {
    if n > 0 {
      RankedIs(dist, i, n - 1);
      if n - 1 != i {
        SortInIs(Ranked(dist, i, n - 1), dist, n - 1);
      }
    }
  }

  // Nearer, or as near with the smaller id.
  predicate Nearer(dist: Distances, x: nat, y: nat) {
    Key(dist, x) < Key(dist, y) || (Key(dist, x) == Key(dist, y) && x < y)
  }

  ghost predicate NearestFirst(l: seq<nat>, dist: Distances) {
    forall a, b :: 0 <= a < b < |l| ==> Nearer(dist, l[a], l[b])
  }

  lemma {:induction false} SortInKeeps(l: seq<nat>, dist: Distances, j: nat)
    requires NearestFirst(l, dist) && forall x :: x in l ==> x < j
    ensures NearestFirst(SortIn(l, dist, j), dist)
    decreases |l|
  {
    hide Key;
    if l != [] {
      var init, last := l[..|l| - 1], l[|l| - 1];
      assert l == init + [last];
      assert last in l && forall x :: x in init ==> x in l;
      assert forall a :: 0 <= a < |init| ==> Nearer(dist, l[a], last);
      if Key(dist, last) > Key(dist, j) {
        SortInKeeps(init, dist, j);
        SortInIs(init, dist, j);
        assert forall x :: x in init ==> Nearer(dist, x, last);
      }
    }
  }

  lemma {:induction false} RankedFirst(dist: Distances, i: nat, n: nat)
    ensures NearestFirst(Ranked(dist, i, n), dist)
  {
    hide NearestFirst;
    if n == 0 {
      NoneFirst(dist);
    } else {
      RankedFirst(dist, i, n - 1);
      RankedIs(dist, i, n - 1);
      if n - 1 != i {
        SortInKeeps(Ranked(dist, i, n - 1), dist, n - 1);
      }
    }
  }

  lemma NoneFirst(dist: Distances)
    ensures NearestFirst([], dist)
  {
  }

  predicate Closer(d: Distances, x: nat, y: nat) {
    x < |d| && y < |d| && (d[x] < d[y] || (d[x] == d[y] && x < y))
  }

  // A row is the nearest 32 of the other nodes, or all of them, in order of distance and
  // then of id; every node left out is behind all of the row.
  lemma NearestMeaning(dist: seq<Distances>, i: nat, n: nat)
    requires i < n && i < |dist| && n <= |dist[i]|
    ensures n >= 2 ==> |Nearest(dist, i, n)| == if n <= 33 then n - 1 else 32
    ensures var row := Nearest(dist, i, n);
            forall a, b :: 0 <= a < b < |row| ==> Closer(dist[i], row[a], row[b])
    ensures var row := Nearest(dist, i, n);
            forall x: nat, a :: x < n && x != i && x !in row && 0 <= a < |row| ==> Closer(dist[i], row[a], x)
  {
    hide Ranked;
    var row, d := Nearest(dist, i, n), dist[i];
    var all := Ranked(d, i, n);
    RankedFirst(d, i, n);
    RankedIs(d, i, n);
    assert forall a :: 0 <= a < |all| ==> all[a] in all;
    assert forall a :: 0 <= a < |row| ==> all[a] in row;
    forall a, b | 0 <= a < b < |row| ensures Closer(d, row[a], row[b]) {
      assert row[a] == all[a] && row[b] == all[b];
    }
    forall x: nat, a | x < n && x != i && x !in row && 0 <= a < |row| ensures Closer(d, row[a], x) {
      assert x in all;
      var b :| 0 <= b < |all| && all[b] == x;
    }
  }

  lemma NearestIs(dist: seq<Distances>, i: nat, n: nat)
    requires i < n
    ensures forall x :: x in Nearest(dist, i, n) ==> x < n && x != i
    ensures n >= 2 ==> |Nearest(dist, i, n)| == Degree(n)
    ensures 2 <= n <= 33 ==> NoRepeats(Nearest(dist, i, n))
  {
    hide Ranked;
    var d: Distances := if i < |dist| then dist[i] else [];
    RankedIs(d, i, n);
    assert forall x :: x in Nearest(dist, i, n) ==> x in Ranked(d, i, n);
  }

  lemma RowsLong(dist: seq<Distances>, n: nat)
    requires n >= 2
    ensures AllLong(Rows(dist, n, n), Degree(n)) && InRange(Flat(Rows(dist, n, n)), n)
  {
    hide Nearest, Degree;
    forall i: nat | i < n ensures InRange(Nearest(dist, i, n), n) && |Nearest(dist, i, n)| == Degree(n) {
      NearestIs(dist, i, n);
    }
    FlatInRange(Rows(dist, n, n), n);
  }

  lemma {:induction false} FlatInRange(rows: seq<seq<nat>>, n: nat)
    requires forall i: nat :: i < |rows| ==> InRange(rows[i], n)
    ensures InRange(Flat(rows), n)
    decreases |rows|
  {
    if rows != [] {
      FlatInRange(rows[..|rows| - 1], n);
    }
  }

  // ----- when the file is connected -----------------------------------------------------------

  // What the file holds.
  ghost predicate FileConnected(adj: Graph, m: nat) {
    Serialized(adj, m).Ok? && StronglyConnected(Serialized(adj, m).value)
  }

  predicate Roomy(n: nat) { n <= 3 || n % 2 == 1 || n > 33 }

  lemma OneNode(dist: seq<Distances>)
    ensures FileConnected(Level0(dist, 1), MOf(1))
  {
    var adj := Level0(dist, 1);
    NearestOfOne(dist);
    assert adj == [[]];
    assert Clean(adj, 0);
    SerializedKeeps(adj, 0, MOf(1));
    assert Reach(adj, 0, 0) by { assert ReachIn(adj, 0, 0, 0); }
    SameConnected(adj, Serialized(adj, MOf(1)).value);
  }

  lemma NearestOfOne(dist: seq<Distances>)
    ensures Nearest(dist, 0, 1) == [] && Rows(dist, 1, 1) == [[]]
  {
    var d: Distances := if 0 < |dist| then dist[0] else [];
    RankedIs(d, 0, 1);
    assert Rows(dist, 1, 1)[0] == [];
  }

  lemma Fitting(dist: seq<Distances>, n: nat)
    requires n >= 2 && Roomy(n)
    ensures FileConnected(Level0(dist, n), MOf(n))
  {
    hide Rows, Lists, Serialized, StronglyConnected;
    RowsLong(dist, n);
    NavigableSurvives(Flat(Rows(dist, n, n)), n, Degree(n), CapOf(n), MOf(n));
  }

  // With every other node in the list and room for one less, the last node goes.
  lemma LargestDropped(l: seq<nat>, n: nat, u: nat)
    requires n >= 2 && CleanList(l, n, u) && |l| == n - 1
    ensures Blob(u, l, n, n - 2).Ok? && n - 1 !in Blob(u, l, n, n - 2).value
  {
    hide Ordered, Without;
    WithoutIs(l, u);
    OrderedIs(l);
    var sorted := Ordered(l);
    assert forall i :: 0 <= i < |sorted| ==> sorted[i] in sorted;
    forall i | 0 <= i < n - 2 ensures sorted[i] < n - 1 {
      assert sorted[i] < sorted[n - 2];
    }
  }

  lemma LastDropped(dist: seq<Distances>, n: nat, u: nat)
    requires 4 <= n <= 32 && n % 2 == 0 && u < n
    ensures |Level0(dist, n)| == n && Dropped(Level0(dist, n), u, n)
  {
    hide Rows, List, Flat, Blob, CleanList;
    RowsLong(dist, n);
    ListClean(Flat(Rows(dist, n, n)), n, Degree(n), CapOf(n), u);
    ListFull(dist, n, u);
    LargestDropped(List(Flat(Rows(dist, n, n)), n, Degree(n), CapOf(n), u), n, u);
    assert 2 * MOf(n) == n - 2;
  }

  lemma ListFull(dist: seq<Distances>, n: nat, u: nat)
    requires 4 <= n <= 32 && u < n
    ensures |List(Flat(Rows(dist, n, n)), n, Degree(n), CapOf(n), u)| == n - 1
  {
    hide Retained, Incoming, Flat, Ranked, List, Nearest;
    var graph, row := Flat(Rows(dist, n, n)), Nearest(dist, u, n);
    var l := List(graph, n, Degree(n), CapOf(n), u);
    RowsLong(dist, n);
    NearestIs(dist, u, n);
    FlatRow(Rows(dist, n, n), Degree(n), u);
    ListClean(graph, n, Degree(n), CapOf(n), u);
    if |l| < n - 1 {
      var i := Pigeonhole(row, l);
      assert row[i] in Merged(graph, n, Degree(n), u);
      ListHolds(graph, n, Degree(n), CapOf(n), u, row[i]);
    }
  }

  lemma NotFitting(dist: seq<Distances>, n: nat)
    requires n >= 2 && !Roomy(n)
    ensures Serialized(Level0(dist, n), MOf(n)).Ok? && !Reach(Serialized(Level0(dist, n), MOf(n)).value, 0, n - 1)
    ensures !FileConnected(Level0(dist, n), MOf(n))
  {
    hide Level0, Blob, StronglyConnected, MOf, Level, Reach;
    var adj := Level0(dist, n);
    forall u: nat | u < n ensures |adj| == n && Dropped(adj, u, n) {
      LastDropped(dist, n, u);
    }
    LastDropped(dist, n, 0);
    var g := NobodyPoints(adj, n, n - 1);
    Unreached(g, 0, n - 1);
  }

  // What is left of node u's list does not name the last node.
  ghost predicate Dropped(adj: Graph, u: nat, n: nat) {
    u < |adj| && n > 0 && Blob(u, adj[u], n, 2 * MOf(n)).Ok? && n - 1 !in Blob(u, adj[u], n, 2 * MOf(n)).value
  }

  lemma NobodyPoints(adj: Graph, n: nat, last: nat) returns (g: Graph)
    requires |adj| == n == last + 1 && forall u: nat :: u < n ==> Dropped(adj, u, n)
    ensures Serialized(adj, MOf(n)) == Ok(g) && |g| == n && forall u: nat :: !Edge(g, u, last)
  {
    hide Blob, MOf, Level;
    forall u: nat | u < n ensures Blob(u, adj[u], |adj|, 2 * MOf(n)).Ok? {
      assert Dropped(adj, u, n);
    }
    LevelAt(adj, 2 * MOf(n), n);
    g := Serialized(adj, MOf(n)).value;
    forall u: nat ensures !Edge(g, u, last) {
      if u < n {
        assert Dropped(adj, u, n);
      }
    }
  }

  // Four points on a line: the last one has no incoming edge left.
  lemma FourNodes()
    ensures var dist := [[0, 1, 2, 3], [1, 0, 1, 2], [2, 1, 0, 1], [3, 2, 1, 0]];
            Serialized(Level0(dist, 4), 1).Ok? && !Reach(Serialized(Level0(dist, 4), 1).value, 0, 3)
  {
    hide Level0, Serialized, Reach;
    NotFitting([[0, 1, 2, 3], [1, 0, 1, 2], [2, 1, 0, 1], [3, 2, 1, 0]], 4);
    assert MOf(4) == 1;
  }

  // The file of a small segment holds a strongly connected graph for exactly these sizes.
  lemma SmallSegmentConnected(dist: seq<Distances>, n: nat)
    requires 1 <= n <= 4096
    ensures FileConnected(Level0(dist, n), MOf(n)) <==> n <= 3 || n % 2 == 1 || n > 33
  {
    hide *;
    RoomyIs(n);
    if n == 1 {
      OneNode(dist);
    } else if Roomy(n) {
      Fitting(dist, n);
    } else {
      NotFitting(dist, n);
    }
  }

  lemma RoomyIs(n: nat)
    ensures Roomy(n) <==> n <= 3 || n % 2 == 1 || n > 33
  {
  }
}
