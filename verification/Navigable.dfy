// Making a k-nearest-neighbour digraph navigable: reverse edges are added, a ring
// comes first in every list, duplicates go, and every list is cut to a cap.
module Navigable {
  import opened Bits
  import opened Wire

  type Graph = seq<seq<nat>>

  // ----- the list of one node -----------------------------------------------------------

  // Row u of a row-major matrix; the last one may be short.
  function Row(graph: seq<nat>, degree: nat, u: nat): seq<nat> {
    if Span(degree, u) + degree <= |graph| then graph[Span(degree, u)..Span(degree, u) + degree]
    else if Span(degree, u) <= |graph| then graph[Span(degree, u)..]
    else []
  }

  // How many rows there are, up to n.
  function RowCount(graph: seq<nat>, n: nat, degree: nat): (k: nat)
    ensures k <= n
  {
    if n == 0 then 0 else if Span(degree, n - 1) < |graph| then n else RowCount(graph, n - 1, degree)
  }

  // u once for every v in the row.
  function Repeated(row: seq<nat>, v: nat, u: nat): seq<nat> {
    if row == [] then []
    else Repeated(row[..|row| - 1], v, u) + if row[|row| - 1] == v then [u] else []
  }

  // The reverse edges into v from rows 0..w.
  function Incoming(graph: seq<nat>, degree: nat, v: nat, w: nat): seq<nat> {
    if w == 0 then [] else Incoming(graph, degree, v, w - 1) + Repeated(Row(graph, degree, w - 1), v, w - 1)
  }

  // First occurrences of everything but u.
  function Retained(l: seq<nat>, u: nat, seen: set<nat>): seq<nat> {
    if l == [] then []
    else if l[0] != u && l[0] !in seen then [l[0]] + Retained(l[1..], u, seen + {l[0]})
    else Retained(l[1..], u, seen)
  }

  function Cut(l: seq<nat>, cap: nat): (r: seq<nat>)
    ensures |r| <= cap && |r| <= |l| && r == l[..|r|] && (|l| <= cap ==> r == l)
  {
    if |l| <= cap then l else l[..cap]
  }

  function Ahead(u: nat, n: nat): nat { if u + 1 < n then u + 1 else 0 }

  function Behind(u: nat, n: nat): nat { if u > 0 then u - 1 else if n > 0 then n - 1 else 0 }

  function Merged(graph: seq<nat>, n: nat, degree: nat, u: nat): seq<nat> {
    [Ahead(u, n), Behind(u, n)] + Row(graph, degree, u) + Incoming(graph, degree, u, n)
  }

  function List(graph: seq<nat>, n: nat, degree: nat, cap: nat, u: nat): seq<nat> {
    Cut(Retained(Merged(graph, n, degree, u), u, {}), cap)
  }

  function Lists(graph: seq<nat>, n: nat, degree: nat, cap: nat): (adj: Graph)
    ensures |adj| == n && forall u: nat :: u < n ==> adj[u] == List(graph, n, degree, cap, u)
  {
    seq(n, u requires 0 <= u < n => List(graph, n, degree, cap, u))
  }

  // ----- the code ----------------------------------------------------------------------------

  // A neighbour below n whose own row is missing.
  ghost predicate Strays(graph: seq<nat>, n: nat, degree: nat) {
    exists u: nat, j: nat :: StrayAt(graph, n, degree, u, j)
  }

  predicate StrayAt(graph: seq<nat>, n: nat, degree: nat, u: nat, j: nat) {
    u < RowCount(graph, n, degree) && j < |Row(graph, degree, u)| && RowCount(graph, n, degree) <= Row(graph, degree, u)[j] < n
  }

  // Of any ids, in rows of `degree`: it panics without a row length or where a reverse edge
  // has no list to go to.
  method NavigableFromKnn(graph: seq<nat>, n: nat, degree: nat, cap: nat) returns (r: Result<Graph>)
    ensures r == Err(Panic) || r.Ok?
    ensures r.Err? <==> degree == 0 || Strays(graph, n, degree)
    ensures r.Ok? ==> r.value == Lists(graph, n, degree, cap)[..RowCount(graph, n, degree)]
  {
    hide Row, Gathered, Trimmed, Lists, RowCount, StrayAt;
    if degree == 0 {
      return Err(Panic);
    }
    var k := RowCount(graph, n, degree);
    var neighbors := new seq<nat>[k](u => Row(graph, degree, u));
    GatheredFirst(neighbors[..], graph, degree);
    var u := 0;
    while u < k
      invariant u <= k && neighbors.Length == k && fresh(neighbors)
      invariant Gathered(neighbors[..], graph, degree, u)
      invariant forall w: nat, j: nat :: w < u ==> !StrayAt(graph, n, degree, w, j)
    {
      var row := AddReverse(neighbors, graph, n, degree, u);
      if row.Err? {
        return Err(Panic);
      }
      u := u + 1;
    }
    NoStrays(graph, n, degree);
    u := 0;
    TrimmedFirst(neighbors[..], graph, n, degree, cap);
    while u < k
      invariant u <= k && neighbors.Length == k && fresh(neighbors)
      invariant Trimmed(neighbors[..], graph, n, degree, cap, u)
    {
      TrimmedNext(neighbors[..], graph, n, degree, cap, u);
      neighbors[u] := Trim(neighbors[u], n, cap, u);
      u := u + 1;
    }
    TrimmedLast(neighbors[..], graph, n, degree, cap);
    return Ok(neighbors[..]);
  }

  lemma NoStrays(graph: seq<nat>, n: nat, degree: nat)
    requires forall w: nat, j: nat :: w < RowCount(graph, n, degree) ==> !StrayAt(graph, n, degree, w, j)
    ensures !Strays(graph, n, degree)
  {
    hide Row, RowCount;
  }

  lemma RowPastEnd(graph: seq<nat>, degree: nat, u: nat)
    requires Span(degree, u) >= |graph|
    ensures Row(graph, degree, u) == []
  {
    hide Span;
  }

  // Past the last row there is nothing to gather.
  lemma {:induction false} NoMoreRows(graph: seq<nat>, n: nat, degree: nat, v: nat)
    ensures Incoming(graph, degree, v, n) == Incoming(graph, degree, v, RowCount(graph, n, degree))
  {
    hide Row, Span;
    if n > 0 && Span(degree, n - 1) >= |graph| {
      NoMoreRows(graph, n - 1, degree, v);
      RowPastEnd(graph, degree, n - 1);
    }
  }

  lemma GatheredFirst(adj: Graph, graph: seq<nat>, degree: nat)
    requires forall v: nat :: v < |adj| ==> adj[v] == Row(graph, degree, v)
    ensures Gathered(adj, graph, degree, 0)
  {
  }

  lemma TrimmedFirst(adj: Graph, graph: seq<nat>, n: nat, degree: nat, cap: nat)
    requires |adj| == RowCount(graph, n, degree) && Gathered(adj, graph, degree, |adj|)
    ensures Trimmed(adj, graph, n, degree, cap, 0)
  {
    hide Row, Incoming, RowCount;
    forall v: nat | v < |adj| ensures adj[v] == Row(graph, degree, v) + Incoming(graph, degree, v, n) {
      NoMoreRows(graph, n, degree, v);
    }
  }

  lemma TrimmedNext(adj: Graph, graph: seq<nat>, n: nat, degree: nat, cap: nat, u: nat)
    requires Trimmed(adj, graph, n, degree, cap, u) && u < |adj|
    ensures Trimmed(adj[u := Cut(Retained([Ahead(u, n), Behind(u, n)] + adj[u], u, {}), cap)], graph, n, degree, cap, u + 1)
  {
    hide Row, Incoming, Retained;
    Assoc([Ahead(u, n), Behind(u, n)], Row(graph, degree, u), Incoming(graph, degree, u, n));
  }

  lemma TrimmedLast(adj: Graph, graph: seq<nat>, n: nat, degree: nat, cap: nat)
    requires |adj| <= n && Trimmed(adj, graph, n, degree, cap, |adj|)
    ensures adj == Lists(graph, n, degree, cap)[..|adj|]
  {
    hide List;
  }

  ghost predicate Gathered(adj: Graph, graph: seq<nat>, degree: nat, w: nat) {
    forall v: nat :: v < |adj| ==> adj[v] == Row(graph, degree, v) + Incoming(graph, degree, v, w)
  }

  ghost predicate Trimmed(adj: Graph, graph: seq<nat>, n: nat, degree: nat, cap: nat, u: nat) {
    forall v: nat :: v < |adj| ==>
      adj[v] == if v < u then List(graph, n, degree, cap, v)
                else Row(graph, degree, v) + Incoming(graph, degree, v, n)
  }

  // The reverse edges of the first j entries of row u are in.
  ghost predicate PartGathered(adj: Graph, graph: seq<nat>, degree: nat, u: nat, j: nat) {
    j <= |Row(graph, degree, u)| && forall v: nat :: v < |adj| ==>
      adj[v] == Row(graph, degree, v) + Incoming(graph, degree, v, u) + Repeated(Row(graph, degree, u)[..j], v, u)
  }

  method AddReverse(neighbors: array<seq<nat>>, graph: seq<nat>, n: nat, degree: nat, u: nat) returns (r: Result<()>)
    requires Gathered(neighbors[..], graph, degree, u) && neighbors.Length == RowCount(graph, n, degree) && u < neighbors.Length
    modifies neighbors
    ensures r.Err? ==> Strays(graph, n, degree)
    ensures r.Ok? ==> Gathered(neighbors[..], graph, degree, u + 1) && forall j: nat :: !StrayAt(graph, n, degree, u, j)
  {
    hide PartGathered, Row, Gathered, RowCount;
    var row := Row(graph, degree, u);
    PartFirst(neighbors[..], graph, degree, u);
    var j := 0;
    while j < |row|
      invariant j <= |row| && PartGathered(neighbors[..], graph, degree, u, j)
      invariant forall i: nat :: i < j ==> !StrayAt(graph, n, degree, u, i)
    {
      PartNext(neighbors[..], graph, degree, u, j);
      var v := row[j];
      if v < n {
        if v >= neighbors.Length {
          assert StrayAt(graph, n, degree, u, j);
          return Err(Panic);
        }
        neighbors[v] := neighbors[v] + [u];
      }
      j := j + 1;
    }
    PartLast(neighbors[..], graph, degree, u);
    return Ok(());
  }

  lemma PartFirst(adj: Graph, graph: seq<nat>, degree: nat, u: nat)
    requires Gathered(adj, graph, degree, u)
    ensures PartGathered(adj, graph, degree, u, 0)
  {
    forall v: nat | v < |adj|
      ensures adj[v] == Row(graph, degree, v) + Incoming(graph, degree, v, u) + Repeated(Row(graph, degree, u)[..0], v, u)
    {
      assert Row(graph, degree, u)[..0] == [];
    }
  }

  lemma PartNext(adj: Graph, graph: seq<nat>, degree: nat, u: nat, j: nat)
    requires PartGathered(adj, graph, degree, u, j) && j < |Row(graph, degree, u)|
    ensures var v := Row(graph, degree, u)[j];
            PartGathered(if v < |adj| then adj[v := adj[v] + [u]] else adj, graph, degree, u, j + 1)
  {
    hide Row;
    var row := Row(graph, degree, u);
    assert row[..j + 1][..j] == row[..j];
  }

  lemma PartLast(adj: Graph, graph: seq<nat>, degree: nat, u: nat)
    requires PartGathered(adj, graph, degree, u, |Row(graph, degree, u)|)
    ensures Gathered(adj, graph, degree, u + 1)
  {
    hide Row;
    var row := Row(graph, degree, u);
    assert row[..|row|] == row;
    forall v: nat | v < |adj| ensures adj[v] == Row(graph, degree, v) + Incoming(graph, degree, v, u + 1) {
      Assoc(Row(graph, degree, v), Incoming(graph, degree, v, u), Repeated(row, v, u));
    }
  }

  method Trim(l: seq<nat>, n: nat, cap: nat, u: nat) returns (merged: seq<nat>)
    requires u < n
    ensures merged == Cut(Retained([Ahead(u, n), Behind(u, n)] + l, u, {}), cap)
  {
    RingModulo(u, n);
    var ringNext, ringPrev := (u + 1) % n, (u + n - 1) % n;
    var all := [ringNext, ringPrev] + l;
    merged := Retain(all, u);
    merged := Cut(merged, cap);
  }

  method Retain(all: seq<nat>, u: nat) returns (merged: seq<nat>)
    ensures merged == Retained(all, u, {})
  {
    var seen: set<nat> := {};
    merged := [];
    var i := 0;
    assert all[0..] == all;
    while i < |all|
      invariant i <= |all|
      invariant merged + Retained(all[i..], u, seen) == Retained(all, u, {})
    {
      assert all[i..][1..] == all[i + 1..];
      var x := all[i];
      if x != u && x !in seen {
        merged, seen := merged + [x], seen + {x};
      }
      i := i + 1;
    }
  }

  lemma RingModulo(u: nat, n: nat)
    requires u < n
    ensures (u + 1) % n == Ahead(u, n) && (u + n - 1) % n == Behind(u, n)
  {
    DivUnique(u + 1, n, if u + 1 < n then 0 else 1, Ahead(u, n));
    DivUnique(u + n - 1, n, if u == 0 then 0 else 1, Behind(u, n));
  }

  // ----- the lists are clean -------------------------------------------------------------------

  ghost predicate InRange(l: seq<nat>, n: nat) { forall x :: x in l ==> x < n }

  ghost predicate NoRepeats(l: seq<nat>) { forall i, j :: 0 <= i < j < |l| ==> l[i] != l[j] }

  ghost predicate CleanList(l: seq<nat>, n: nat, u: nat) { InRange(l, n) && u !in l && NoRepeats(l) }

  ghost predicate Clean(adj: Graph, cap: nat) {
    forall u: nat :: u < |adj| ==> CleanList(adj[u], |adj|, u) && |adj[u]| <= cap
  }

  lemma {:induction false} RetainedIs(l: seq<nat>, u: nat, seen: set<nat>)
    ensures forall x :: x in Retained(l, u, seen) <==> x in l && x != u && x !in seen
    ensures NoRepeats(Retained(l, u, seen))
  {
    if l != [] {
      assert l == [l[0]] + l[1..];
      if l[0] != u && l[0] !in seen {
        RetainedIs(l[1..], u, seen + {l[0]});
      } else {
        RetainedIs(l[1..], u, seen);
      }
    }
  }

  lemma MergedInRange(graph: seq<nat>, n: nat, degree: nat, u: nat)
    requires u < n && InRange(graph, n)
    ensures InRange(Merged(graph, n, degree, u), n)
  {
    forall x | x in Incoming(graph, degree, u, n) ensures x < n {
      IncomingHolds(graph, degree, u, n, x);
    }
    assert forall x :: x in Row(graph, degree, u) ==> x in graph;
  }

  // ----- what a list holds ---------------------------------------------------------------------

  // The matrix has v in row u.
  ghost predicate HasEdge(graph: seq<nat>, degree: nat, u: nat, v: nat) {
    exists j: nat :: EntryIs(graph, degree, u, j, v)
  }

  predicate EntryIs(graph: seq<nat>, degree: nat, u: nat, j: nat, v: nat) {
    j < degree && degree * u + j < |graph| && graph[degree * u + j] == v
  }

  // The neighbours of u on the ring of all nodes and in its own row.
  ghost predicate Forward(graph: seq<nat>, n: nat, degree: nat, u: nat, x: nat) {
    n > 0 && (x == (u + 1) % n || x == (u + n - 1) % n || HasEdge(graph, degree, u, x))
  }

  ghost predicate Reverse(graph: seq<nat>, n: nat, degree: nat, u: nat, x: nat) { x < n && HasEdge(graph, degree, x, u) }

  // Rows are counted as long as they have an entry.
  lemma RowsMeaning(graph: seq<nat>, n: nat, degree: nat, u: nat)
    ensures u < RowCount(graph, n, degree) <==> u < n && degree * u < |graph|
  {
    hide RowCount;
    SpanIs(degree, u);
    RowsCounted(graph, n, degree, u);
  }

  lemma {:induction false} RowsCounted(graph: seq<nat>, n: nat, degree: nat, u: nat)
    ensures u < RowCount(graph, n, degree) <==> u < n && Span(degree, u) < |graph|
    decreases n
  {
    hide Span;
    if n > 0 {
      RowsCounted(graph, n - 1, degree, u);
      if u < n - 1 {
        SpanUpTo(degree, u, n - 1);
      }
    }
  }

  lemma RowHolds(graph: seq<nat>, degree: nat, u: nat, v: nat)
    ensures v in Row(graph, degree, u) <==> HasEdge(graph, degree, u, v)
  {
    var row := Row(graph, degree, u);
    SpanIs(degree, u);
    assert forall j :: 0 <= j < |row| ==> row[j] == graph[degree * u + j];
    if v in row {
      var j: nat :| j < |row| && row[j] == v;
      assert EntryIs(graph, degree, u, j, v);
    }
    if HasEdge(graph, degree, u, v) {
      var j: nat :| EntryIs(graph, degree, u, j, v);
      assert row[j] == v;
    }
  }

  lemma {:induction false} IncomingHolds(graph: seq<nat>, degree: nat, v: nat, w: nat, x: nat)
    ensures x in Incoming(graph, degree, v, w) <==> x < w && v in Row(graph, degree, x)
  {
    hide Row;
    if w > 0 {
      IncomingHolds(graph, degree, v, w - 1, x);
      RepeatedHolds(Row(graph, degree, w - 1), v, w - 1, x);
    }
  }

  lemma {:induction false} RepeatedHolds(row: seq<nat>, v: nat, u: nat, x: nat)
    ensures x in Repeated(row, v, u) <==> x == u && v in row
    decreases |row|
  {
    if row != [] {
      RepeatedHolds(row[..|row| - 1], v, u, x);
      assert row == row[..|row| - 1] + [row[|row| - 1]];
    }
  }

  lemma {:induction false} RetainedHead(a: seq<nat>, b: seq<nat>, u: nat, seen: set<nat>)
    ensures Retained(a, u, seen) <= Retained(a + b, u, seen)
  {
    if a != [] {
      assert (a + b)[1..] == a[1..] + b;
      RetainedHead(a[1..], b, u, if a[0] != u && a[0] !in seen then seen + {a[0]} else seen);
    }
  }

  // The list of u has no node but those wanted, none twice; with room it has all of them; and
  // a node wanted for its reverse edge only stands in it after every other one.
  lemma ListMeaning(graph: seq<nat>, n: nat, degree: nat, cap: nat, u: nat, x: nat, y: nat)
    requires u < n
    ensures var l := List(graph, n, degree, cap, u);
            var wanted := x != u && (Forward(graph, n, degree, u, x) || Reverse(graph, n, degree, u, x));
            && |l| <= cap && NoRepeats(l) && (x in l ==> wanted) && (|l| < cap && wanted ==> x in l)
            && (y in l && !Forward(graph, n, degree, u, y) && x != u && Forward(graph, n, degree, u, x) ==> x in l)
  {
    hide Row, Incoming, Retained, Forward, Reverse, NoRepeats;
    var ahead := [Ahead(u, n), Behind(u, n)] + Row(graph, degree, u);
    var all := Merged(graph, n, degree, u);
    assert all == ahead + Incoming(graph, degree, u, n);
    WantedIs(graph, n, degree, u, x);
    WantedIs(graph, n, degree, u, y);
    RetainedIs(all, u, {});
    RetainedIs(ahead, u, {});
    RetainedHead(ahead, Incoming(graph, degree, u, n), u, {});
    CutKeeps(Retained(ahead, u, {}), Retained(all, u, {}), cap, x, y);
  }

  lemma WantedIs(graph: seq<nat>, n: nat, degree: nat, u: nat, x: nat)
    requires u < n
    ensures Forward(graph, n, degree, u, x) <==> x in [Ahead(u, n), Behind(u, n)] + Row(graph, degree, u)
    ensures Reverse(graph, n, degree, u, x) <==> x in Incoming(graph, degree, u, n)
  {
    hide Row, Incoming, HasEdge;
    RingModulo(u, n);
    RowHolds(graph, degree, u, x);
    IncomingHolds(graph, degree, u, n, x);
    RowHolds(graph, degree, x, u);
  }

  // A cut that keeps something behind the head keeps the whole head.
  lemma CutKeeps(head: seq<nat>, all: seq<nat>, cap: nat, x: nat, y: nat)
    requires head <= all && NoRepeats(all)
    ensures NoRepeats(Cut(all, cap)) && (x in Cut(all, cap) ==> x in all)
    ensures |Cut(all, cap)| < cap ==> Cut(all, cap) == all
    ensures y in Cut(all, cap) && y !in head && x in head ==> x in Cut(all, cap)
  {
    var l := Cut(all, cap);
    if y in l && y !in head && x in head {
      assert forall k :: 0 <= k < |head| ==> all[k] in head;
      var i :| 0 <= i < |l| && l[i] == y;
      var j :| 0 <= j < |head| && head[j] == x;
      assert l[j] == x;
    }
  }

  lemma ListClean(graph: seq<nat>, n: nat, degree: nat, cap: nat, u: nat)
    requires u < n && InRange(graph, n)
    ensures CleanList(List(graph, n, degree, cap, u), n, u) && |List(graph, n, degree, cap, u)| <= cap
  {
    hide Merged, Retained;
    MergedInRange(graph, n, degree, u);
    RetainedIs(Merged(graph, n, degree, u), u, {});
    assert forall x :: x in List(graph, n, degree, cap, u) ==> x in Retained(Merged(graph, n, degree, u), u, {});
  }

  lemma ListsClean(graph: seq<nat>, n: nat, degree: nat, cap: nat)
    requires InRange(graph, n)
    ensures Clean(Lists(graph, n, degree, cap), cap)
  {
    hide List, InRange;
    forall u: nat | u < n
      ensures CleanList(List(graph, n, degree, cap, u), n, u) && |List(graph, n, degree, cap, u)| <= cap
    {
      ListClean(graph, n, degree, cap, u);
    }
  }

  // Nothing is lost before the cap: ring, out-edges, then reverse edges, in that order.
  lemma ListHolds(graph: seq<nat>, n: nat, degree: nat, cap: nat, u: nat, x: nat)
    requires u < n && x in Merged(graph, n, degree, u) && x != u
    ensures x in List(graph, n, degree, cap, u) || |List(graph, n, degree, cap, u)| == cap
  {
    hide Merged, Retained;
    RetainedIs(Merged(graph, n, degree, u), u, {});
  }

  // ----- strong connectivity --------------------------------------------------------------------

  predicate Edge(adj: Graph, u: nat, v: nat) { u < |adj| && v in adj[u] }

  ghost predicate ReachIn(adj: Graph, u: nat, v: nat, steps: nat)
    decreases steps
  {
    if steps == 0 then u == v else exists w: nat :: Edge(adj, u, w) && ReachIn(adj, w, v, steps - 1)
  }

  ghost predicate Reach(adj: Graph, u: nat, v: nat) { exists steps: nat :: ReachIn(adj, u, v, steps) }

  ghost predicate StronglyConnected(adj: Graph) {
    forall u: nat, v: nat :: u < |adj| && v < |adj| ==> Reach(adj, u, v)
  }

  ghost predicate Ring(adj: Graph) {
    forall u: nat :: u < |adj| ==> Edge(adj, u, Ahead(u, |adj|))
  }

  lemma {:induction false} AlongRing(adj: Graph, u: nat, v: nat)
    requires Ring(adj) && u <= v < |adj|
    ensures ReachIn(adj, u, v, v - u)
    decreases v - u
  {
    if u < v {
      AlongRing(adj, u + 1, v);
      assert Edge(adj, u, Ahead(u, |adj|));
    }
  }

  lemma {:induction false} ReachOn(adj: Graph, u: nat, v: nat, w: nat, a: nat, b: nat)
    requires ReachIn(adj, u, v, a) && ReachIn(adj, v, w, b)
    ensures ReachIn(adj, u, w, a + b)
    decreases a
  {
    if a > 0 {
      var x: nat :| Edge(adj, u, x) && ReachIn(adj, x, v, a - 1);
      ReachOn(adj, x, v, w, a - 1, b);
      assert a + b - 1 == a - 1 + b;
    }
  }

  lemma RingConnects(adj: Graph)
    requires Ring(adj)
    ensures StronglyConnected(adj)
  {
    hide ReachIn;
    forall u: nat, v: nat | u < |adj| && v < |adj| ensures Reach(adj, u, v) {
      if u <= v {
        AlongRing(adj, u, v);
      } else {
        AlongRing(adj, u, |adj| - 1);
        RoundTheEnd(adj);
        ReachOn(adj, u, |adj| - 1, 0, |adj| - 1 - u, 1);
        AlongRing(adj, 0, v);
        ReachOn(adj, u, 0, v, |adj| - 1 - u + 1, v);
      }
    }
  }

  lemma RoundTheEnd(adj: Graph)
    requires Ring(adj) && |adj| > 0
    ensures ReachIn(adj, |adj| - 1, 0, 1)
  {
    assert Edge(adj, |adj| - 1, Ahead(|adj| - 1, |adj|));
    assert ReachIn(adj, 0, 0, 0);
  }

  lemma ListsRing(graph: seq<nat>, n: nat, degree: nat, cap: nat)
    requires n >= 2 && cap >= 1
    ensures Ring(Lists(graph, n, degree, cap))
  {
    hide Incoming, Row;
    forall u: nat | u < n ensures Ahead(u, n) in List(graph, n, degree, cap, u) {
      assert Merged(graph, n, degree, u)[0] == Ahead(u, n);
      assert Retained(Merged(graph, n, degree, u), u, {})[0] == Ahead(u, n);
    }
  }

  // From any in-range digraph on two or more nodes: clean, capped, strongly connected.
  lemma ListsNavigable(graph: seq<nat>, n: nat, degree: nat, cap: nat)
    requires n >= 2 && cap >= 1 && InRange(graph, n)
    ensures Clean(Lists(graph, n, degree, cap), cap) && StronglyConnected(Lists(graph, n, degree, cap))
  {
    hide *;
    ListsClean(graph, n, degree, cap);
    ListsRing(graph, n, degree, cap);
    RingConnects(Lists(graph, n, degree, cap));
  }

  // A matrix with all its rows has no strays.
  lemma FullMatrix(graph: seq<nat>, n: nat, degree: nat)
    requires degree > 0 && Span(degree, n) <= |graph|
    ensures RowCount(graph, n, degree) == n && !Strays(graph, n, degree)
  {
    hide Row;
  }

  // With rows missing, the ring still points past the last list: what comes out is
  // navigable exactly when no row is missing, or all of them.
  lemma NavigableExact(graph: seq<nat>, n: nat, degree: nat, cap: nat)
    requires n >= 2 && cap >= 1 && InRange(graph, n)
    ensures var k := RowCount(graph, n, degree);
            var adj := Lists(graph, n, degree, cap)[..k];
            (Clean(adj, cap) && StronglyConnected(adj)) <==> k == n || k == 0
  {
    hide Reach, RowCount, List, Lists;
    var k, all := RowCount(graph, n, degree), Lists(graph, n, degree, cap);
    if k == n {
      ListsNavigable(graph, n, degree, cap);
      assert all[..n] == all;
    } else if k > 0 {
      RingPastEnd(graph, n, degree, cap, k - 1);
      assert all[..k][k - 1] == List(graph, n, degree, cap, k - 1);
      assert !CleanList(all[..k][k - 1], k, k - 1);
    }
  }

  lemma RingPastEnd(graph: seq<nat>, n: nat, degree: nat, cap: nat, u: nat)
    requires u + 1 < n && cap >= 1
    ensures u + 1 in List(graph, n, degree, cap, u)
  {
    hide Incoming, Row;
    assert Merged(graph, n, degree, u)[0] == Ahead(u, n);
    assert Retained(Merged(graph, n, degree, u), u, {})[0] == Ahead(u, n);
  }

  lemma {:induction false} LastEdge(adj: Graph, u: nat, v: nat, steps: nat)
    requires ReachIn(adj, u, v, steps) && steps > 0
    ensures exists w: nat :: Edge(adj, w, v)
    decreases steps
  {
    var w: nat :| Edge(adj, u, w) && ReachIn(adj, w, v, steps - 1);
    if steps > 1 {
      LastEdge(adj, w, v, steps - 1);
    }
  }

  // A node nobody points at cannot be reached.
  lemma Unreached(adj: Graph, u: nat, v: nat)
    requires u < |adj| && v < |adj| && u != v && forall w: nat :: !Edge(adj, w, v)
    ensures !Reach(adj, u, v) && !StronglyConnected(adj)
  {
    if Reach(adj, u, v) {
      var steps: nat :| ReachIn(adj, u, v, steps);
      LastEdge(adj, u, v, steps);
    }
  }
}
