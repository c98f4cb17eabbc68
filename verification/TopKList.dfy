// One thread's part of the device top-k: it walks every blockDim-th document and
// keeps the k best scores it has met in a list sorted by insertion.
module TopKList {
  import opened Bits

  const SENTINEL: real := -1000000000000000000000000000000.0
  const NO_DOC := 0xffff_ffff

  datatype Hit = Hit(score: real, doc: nat)

  ghost predicate Scores(scores: seq<real>) {
    |scores| <= NO_DOC && forall d :: 0 <= d < |scores| ==> scores[d] > SENTINEL
  }

  // Where a new score goes: behind every score at least as high.
  function Place(l: seq<Hit>, v: real): (i: nat)
    ensures i <= |l|
  {
    if l == [] || l[|l| - 1].score >= v then |l| else Place(l[..|l| - 1], v)
  }

  function Insert(l: seq<Hit>, h: Hit): seq<Hit> {
    var i := Place(l, h.score);
    l[..i] + [h] + l[i..]
  }

  // A hit better than the worst of the list pushes that one out.
  function Offer(l: seq<Hit>, h: Hit): (r: seq<Hit>)
    ensures |r| == |l|
  {
    if l != [] && h.score > l[|l| - 1].score then Insert(l[..|l| - 1], h) else l
  }

  function Empty(k: nat): seq<Hit> { seq(k, i => Hit(SENTINEL, NO_DOC)) }

  function OfferFrom(l: seq<Hit>, scores: seq<real>, d: nat, b: nat): (r: seq<Hit>)
    ensures |r| == |l|
    decreases |scores| - d
  {
    if b == 0 || d >= |scores| then l else OfferFrom(Offer(l, Hit(scores[d], d)), scores, d + b, b)
  }

  // What thread t of b leaves behind.
  function Local(scores: seq<real>, k: nat, t: nat, b: nat): (r: seq<Hit>)
    ensures |r| == k
  {
    OfferFrom(Empty(k), scores, t, b)
  }

  // ----- the list as the kernel keeps it, two arrays -----------------------------------

  function Zip(tv: seq<real>, td: seq<nat>): (l: seq<Hit>)
    requires |tv| == |td|
  {
    seq(|tv|, i requires 0 <= i < |tv| => Hit(tv[i], td[i]))
  }

  // The entries from i on have moved one place down; all of them score below v.
  ghost predicate Opened(l: seq<Hit>, tv: seq<real>, td: seq<nat>, i: nat, v: real) {
    && i < |l| == |tv| == |td|
    && (forall j :: 0 <= j < i ==> tv[j] == l[j].score && td[j] == l[j].doc)
    && (forall j :: i < j < |l| ==> tv[j] == l[j - 1].score && td[j] == l[j - 1].doc)
    && Place(l[..|l| - 1], v) == Place(l[..i], v)
  }

  lemma OpenedMore(l: seq<Hit>, tv: seq<real>, td: seq<nat>, i: nat, v: real)
    requires Opened(l, tv, td, i, v) && i > 0 && tv[i - 1] < v
    ensures Opened(l, tv[i := tv[i - 1]], td[i := td[i - 1]], i - 1, v)
  {
    assert l[..i][..i - 1] == l[..i - 1];
  }

  lemma Filled(l: seq<Hit>, tv: seq<real>, td: seq<nat>, i: nat, h: Hit)
    requires Opened(l, tv, td, i, h.score) && h.score > l[|l| - 1].score && (i > 0 ==> tv[i - 1] >= h.score)
    ensures Zip(tv[i := h.score], td[i := h.doc]) == Offer(l, h)
  {
    assert Place(l[..i], h.score) == i;
    assert Offer(l, h) == l[..|l| - 1][..i] + [h] + l[..|l| - 1][i..];
  }

  method Shift(tv: array<real>, td: array<nat>, v: real, d: nat)
    requires 0 < tv.Length == td.Length
    requires v > tv[tv.Length - 1]
    modifies tv, td
    ensures Zip(tv[..], td[..]) == Offer(old(Zip(tv[..], td[..])), Hit(v, d))
  {
    hide Opened, Offer, Place;
    ghost var l := Zip(tv[..], td[..]);
    var i := tv.Length - 1;
    OpenedAtEnd(tv[..], td[..], v);
    while i > 0 && tv[i - 1] < v
      invariant 0 <= i < tv.Length
      invariant Opened(l, tv[..], td[..], i, v)
    {
      OpenedMore(l, tv[..], td[..], i, v);
      tv[i] := tv[i - 1];
      td[i] := td[i - 1];
      i := i - 1;
    }
    Filled(l, tv[..], td[..], i, Hit(v, d));
    tv[i] := v;
    td[i] := d;
  }

  lemma OpenedAtEnd(tv: seq<real>, td: seq<nat>, v: real)
    requires 0 < |tv| == |td|
    ensures Opened(Zip(tv, td), tv, td, |tv| - 1, v)
  {
  }

  method KeepBest(scores: seq<real>, k: nat, t: nat, b: nat) returns (tv: array<real>, td: array<nat>)
    requires k > 0 && b > 0
    ensures tv.Length == td.Length == k && fresh(tv) && fresh(td)
    ensures Zip(tv[..], td[..]) == Local(scores, k, t, b)
  {
    hide OfferFrom, Offer;
    tv, td := new real[k](i => SENTINEL), new nat[k](i => NO_DOC);
    assert Zip(tv[..], td[..]) == Empty(k);
    var d := t;
    while d < |scores|
      invariant tv.Length == td.Length == k && fresh(tv) && fresh(td)
      invariant OfferFrom(Zip(tv[..], td[..]), scores, d, b) == Local(scores, k, t, b)
      decreases |scores| - d
    {
      OfferNext(Zip(tv[..], td[..]), scores, d, b);
      var v := scores[d];
      if v > tv[k - 1] {
        Shift(tv, td, v, d);
      }
      d := d + b;
    }
    OfferEnd(Zip(tv[..], td[..]), scores, d, b);
  }

  lemma OfferNext(l: seq<Hit>, scores: seq<real>, d: nat, b: nat)
    requires l != [] && b > 0 && d < |scores|
    ensures OfferFrom(l, scores, d, b) == OfferFrom(Offer(l, Hit(scores[d], d)), scores, d + b, b)
    ensures scores[d] <= l[|l| - 1].score ==> Offer(l, Hit(scores[d], d)) == l
  {
  }

  lemma OfferEnd(l: seq<Hit>, scores: seq<real>, d: nat, b: nat)
    requires d >= |scores|
    ensures OfferFrom(l, scores, d, b) == l
  {
  }

  // ----- what the list holds ---------------------------------------------------------------

  ghost predicate Has(l: seq<Hit>, d: nat) { exists i :: 0 <= i < |l| && l[i].doc == d }

  ghost predicate Sorted(l: seq<Hit>) { forall i, j :: 0 <= i < j < |l| ==> l[i].score >= l[j].score }

  // An entry is a document with its score, or a vacancy.
  predicate Honest(scores: seq<real>, h: Hit) {
    if h.doc == NO_DOC then h.score == SENTINEL else h.doc < |scores| && h.score == scores[h.doc]
  }

  ghost predicate AllHonest(scores: seq<real>, l: seq<Hit>) {
    forall i :: 0 <= i < |l| ==> Honest(scores, l[i])
  }

  ghost predicate Once(l: seq<Hit>) {
    forall i, j :: 0 <= i < j < |l| && l[i].doc == l[j].doc ==> l[i].doc == NO_DOC
  }

  ghost predicate Within(l: seq<Hit>, seen: set<nat>) {
    forall i :: 0 <= i < |l| ==> l[i].doc == NO_DOC || l[i].doc in seen
  }

  // A document met is in the list, or no entry is worse than it.
  ghost predicate Missed(l: seq<Hit>, scores: seq<real>, d: nat) {
    d < |scores| && forall i :: 0 <= i < |l| ==> l[i].score >= scores[d]
  }

  ghost predicate Best(l: seq<Hit>, scores: seq<real>, seen: set<nat>) {
    && Sorted(l) && AllHonest(scores, l) && Once(l) && Within(l, seen)
    && forall d: nat :: d in seen ==> d < |scores| && (Has(l, d) || Missed(l, scores, d))
  }

  lemma {:induction false} PlaceSplits(l: seq<Hit>, v: real)
    requires Sorted(l)
    ensures forall j :: 0 <= j < Place(l, v) ==> l[j].score >= v
    ensures forall j :: Place(l, v) <= j < |l| ==> l[j].score < v
    decreases |l|
  {
    if l != [] && l[|l| - 1].score < v {
      PlaceSplits(l[..|l| - 1], v);
    }
  }

  lemma OfferBest(l: seq<Hit>, scores: seq<real>, seen: set<nat>, d: nat)
    requires l != [] && Scores(scores) && Best(l, scores, seen) && d < |scores| && d !in seen
    ensures Best(Offer(l, Hit(scores[d], d)), scores, seen + {d})
  {
    hide Offer, Sorted, Once, Within, AllHonest, Has, Missed;
    var h := Hit(scores[d], d);
    if h.score > l[|l| - 1].score {
      OfferInserts(l, h);
      var i, r := Place(l[..|l| - 1], h.score), Offer(l, h);
      InsertOrder(l, r, i, h, scores);
      InsertOnce(l, r, i, h, seen);
      forall x: nat | x in seen + {d} ensures Has(r, x) || Missed(r, scores, x) {
        InsertKeeps(l, r, i, h, scores, x);
      }
    } else {
      OfferRefused(l, h, scores, seen);
    }
  }

  lemma OfferInserts(l: seq<Hit>, h: Hit)
    requires l != [] && Sorted(l) && h.score > l[|l| - 1].score
    ensures Inserted(l, Offer(l, h), Place(l[..|l| - 1], h.score), h)
  {
    var kept := l[..|l| - 1];
    PlaceSplits(kept, h.score);
  }

  lemma OfferRefused(l: seq<Hit>, h: Hit, scores: seq<real>, seen: set<nat>)
    requires l != [] && Sorted(l) && Within(l, seen) && h.doc < |scores| && h.score == scores[h.doc]
    requires h.score <= l[|l| - 1].score
    ensures Offer(l, h) == l && Missed(l, scores, h.doc) && Within(l, seen + {h.doc})
  {
  }

  ghost predicate Inserted(l: seq<Hit>, r: seq<Hit>, i: nat, h: Hit) {
    && l != [] && |r| == |l| && i < |l|
    && (forall j :: 0 <= j < i ==> r[j] == l[j] && l[j].score >= h.score)
    && r[i] == h && (forall j :: i < j < |l| ==> r[j] == l[j - 1] && l[j - 1].score < h.score)
  }

  lemma InsertOrder(l: seq<Hit>, r: seq<Hit>, i: nat, h: Hit, scores: seq<real>)
    requires Inserted(l, r, i, h) && Sorted(l) && AllHonest(scores, l) && Honest(scores, h)
    ensures Sorted(r) && AllHonest(scores, r)
  {
  }

  lemma InsertOnce(l: seq<Hit>, r: seq<Hit>, i: nat, h: Hit, seen: set<nat>)
    requires Inserted(l, r, i, h) && Once(l) && Within(l, seen) && h.doc !in seen && h.doc != NO_DOC
    ensures Once(r) && Within(r, seen + {h.doc})
  {
    assert forall q :: 0 <= q < |l| ==> l[q].doc != h.doc;
    forall a, b | 0 <= a < b < |r| && r[a].doc == r[b].doc ensures r[a].doc == NO_DOC {
      var a', b' := if a < i then a else a - 1, if b < i then b else b - 1;
      if a != i && b != i {
        assert l[a'].doc == l[b'].doc;
      }
    }
  }

  lemma InsertKeeps(l: seq<Hit>, r: seq<Hit>, i: nat, h: Hit, scores: seq<real>, x: nat)
    requires Inserted(l, r, i, h) && Sorted(l) && AllHonest(scores, l) && h.score > l[|l| - 1].score
    requires x == h.doc || Has(l, x) || Missed(l, scores, x)
    requires x < |scores| && |scores| <= NO_DOC
    ensures Has(r, x) || Missed(r, scores, x)
  {
    if x == h.doc {
      assert r[i].doc == x;
    } else if Has(l, x) {
      var j :| 0 <= j < |l| && l[j].doc == x;
      if j < i {
        assert r[j].doc == x;
      } else if j + 1 < |l| {
        assert r[j + 1].doc == x;
      } else {
        assert Honest(scores, l[j]);
        assert forall q :: 0 <= q < |r| ==> r[q].score >= l[j].score;
      }
    } else {
      assert forall q :: 0 <= q < |r| ==> r[q].score >= scores[x];
    }
  }

  // The documents from d on, every b-th.
  ghost function Strided(d: nat, b: nat, n: nat): set<nat>
    decreases n - d
  {
    if b == 0 || d >= n then {} else {d} + Strided(d + b, b, n)
  }

  lemma {:induction false} StridedAbove(d: nat, b: nat, n: nat)
    ensures forall x: nat :: x in Strided(d, b, n) ==> d <= x < n
    decreases n - d
  {
    if b > 0 && d < n {
      StridedAbove(d + b, b, n);
    }
  }

  lemma {:induction false} OfferFromBest(l: seq<Hit>, scores: seq<real>, seen: set<nat>, d: nat, b: nat)
    requires l != [] && Scores(scores) && Best(l, scores, seen) && b > 0
    requires forall x: nat :: x in seen ==> x < d
    ensures Best(OfferFrom(l, scores, d, b), scores, seen + Strided(d, b, |scores|))
    decreases |scores| - d
  {
    hide Best, Offer;
    if d < |scores| {
      OfferBest(l, scores, seen, d);
      OfferFromBest(Offer(l, Hit(scores[d], d)), scores, seen + {d}, d + b, b);
      assert seen + {d} + Strided(d + b, b, |scores|) == seen + Strided(d, b, |scores|);
    } else {
      assert seen + Strided(d, b, |scores|) == seen;
    }
  }

  // A thread's list: the best k of its documents.
  lemma LocalBest(scores: seq<real>, k: nat, t: nat, b: nat)
    requires k > 0 && b > 0 && Scores(scores)
    ensures Best(Local(scores, k, t, b), scores, Strided(t, b, |scores|))
  {
    assert Best(Empty(k), scores, {});
    OfferFromBest(Empty(k), scores, {}, t, b);
    assert {} + Strided(t, b, |scores|) == Strided(t, b, |scores|);
  }

  // ----- the strides of b threads cut 0..n apart --------------------------------------------

  lemma SameRest(x: nat, b: nat)
    requires b > 0
    ensures (x + b) % b == x % b
  {
    var q := x / b;
    DivStep(x + b, b);
    assert b * (q + 1) == b * q + b;
    assert x == b * q + x % b && x + b == b * (q + 1) + (x + b) % b;
  }

  lemma {:induction false} StridedRest(d: nat, b: nat, n: nat)
    requires b > 0
    ensures forall x: nat :: x in Strided(d, b, n) ==> x % b == d % b
    decreases n - d
  {
    if d < n {
      SameRest(d, b);
      StridedRest(d + b, b, n);
    }
  }

  lemma {:induction false} StridedReaches(d: nat, b: nat, n: nat, x: nat)
    requires b > 0 && d <= x < n && x % b == d % b
    ensures x in Strided(d, b, n)
    decreases n - d
  {
    if x >= d + b {
      SameRest(d, b);
      StridedReaches(d + b, b, n, x);
    } else if x > d {
      NearRest(d, x, b);
    }
  }

  lemma NearRest(d: nat, x: nat, b: nat)
    requires b > 0 && d < x < d + b
    ensures x % b != d % b
  {
    if x % b == d % b {
      assert (x / b) * b + x % b == x && (d / b) * b + d % b == d;
      assert (x / b - d / b) * b == x - d;
      if x / b - d / b >= 1 {
        TimesMonotone(1, x / b - d / b, b);
      } else {
        TimesMonotone(x / b - d / b, 0, b);
      }
    }
  }

  // Every position belongs to exactly one of b threads.
  lemma OneStride(x: nat, b: nat, n: nat)
    requires b > 0 && x < n
    ensures x % b < b && x in Strided(x % b, b, n)
    ensures forall t: nat :: t < b && x in Strided(t, b, n) ==> t == x % b
  {
    RestOfRest(x % b, b);
    DivUnique(x, b, x / b, x % b);
    assert x % b <= x by { TimesMonotone(0, x / b, b); assert (x / b) * b + x % b == x; }
    StridedReaches(x % b, b, n, x);
    forall t: nat | t < b && x in Strided(t, b, n) ensures t == x % b {
      StridedRest(t, b, n);
      RestOfRest(t, b);
    }
  }

  lemma RestOfRest(t: nat, b: nat)
    requires t < b
    ensures t % b == t
  {
    DivUnique(t, b, 0, t);
  }
}
