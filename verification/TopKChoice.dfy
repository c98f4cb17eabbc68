// What the rounds of the device top-k choose from: the lists of all threads, and
// why taking the best entry left k times over gives the k best documents.
module TopKChoice {
  import opened Bits
  import opened TopKList

  // The lists of threads 0..t, one after the other.
  function Pool(scores: seq<real>, k: nat, b: nat, t: nat): (pool: seq<Hit>)
    ensures |pool| == Span(k, t)
  {
    if t == 0 then [] else Pool(scores, k, b, t - 1) + Local(scores, k, t - 1, b)
  }

  lemma {:induction false} PoolAt(scores: seq<real>, k: nat, b: nat, n: nat, t: nat, i: nat)
    requires t < n && i < k
    ensures Span(k, t) + i < Span(k, n)
    ensures Pool(scores, k, b, n)[Span(k, t) + i] == Local(scores, k, t, b)[i]
    decreases n
  {
    hide Local;
    if t < n - 1 {
      PoolAt(scores, k, b, n - 1, t, i);
    }
  }

  lemma {:induction false} Owner(k: nat, n: nat, p: nat) returns (t: nat, i: nat)
    requires p < Span(k, n)
    ensures t < n && i < k && p == Span(k, t) + i
    decreases n
  {
    if p < Span(k, n - 1) {
      t, i := Owner(k, n - 1, p);
    } else {
      t, i := n - 1, p - Span(k, n - 1);
    }
  }

  // k entries in a row none of which is worse than v.
  ghost predicate Block(pool: seq<Hit>, at: nat, k: nat, v: real) {
    at + k <= |pool| && forall i :: at <= i < at + k ==> pool[i].score >= v
  }

  ghost predicate Beaten(pool: seq<Hit>, k: nat, v: real) { exists at: nat :: Block(pool, at, k, v) }

  ghost predicate Complete(pool: seq<Hit>, scores: seq<real>, k: nat) {
    && pool != [] && AllHonest(scores, pool) && Once(pool)
    && (forall d: nat :: d < |scores| ==> Has(pool, d) || Beaten(pool, k, scores[d]))
    && (pool[0].doc == NO_DOC <==> scores == [])
  }

  lemma PoolComplete(scores: seq<real>, k: nat, b: nat)
    requires k > 0 && b > 0 && Scores(scores)
    ensures Complete(Pool(scores, k, b, b), scores, k)
  {
    hide Once, Has, Beaten, Pool, AllHonest;
    var pool := Pool(scores, k, b, b);
    PoolHonest(scores, k, b);
    PoolOnce(scores, k, b);
    forall d: nat | d < |scores| ensures Has(pool, d) || Beaten(pool, k, scores[d]) {
      PoolKeeps(scores, k, b, d);
    }
    PoolFirst(scores, k, b);
  }

  lemma PoolHonest(scores: seq<real>, k: nat, b: nat)
    requires k > 0 && b > 0 && Scores(scores)
    ensures AllHonest(scores, Pool(scores, k, b, b))
  {
    hide Local, Pool, Honest;
    var pool := Pool(scores, k, b, b);
    forall p | 0 <= p < |pool| ensures Honest(scores, pool[p]) {
      var t, i := Owner(k, b, p);
      PoolAt(scores, k, b, b, t, i);
      LocalBest(scores, k, t, b);
    }
  }

  lemma PoolOnce(scores: seq<real>, k: nat, b: nat)
    requires k > 0 && b > 0 && Scores(scores)
    ensures Once(Pool(scores, k, b, b))
  {
    hide Pool;
    var pool := Pool(scores, k, b, b);
    forall p, q | 0 <= p < q < |pool| && pool[p].doc == pool[q].doc ensures pool[p].doc == NO_DOC {
      SameEntry(scores, k, b, p, q);
    }
  }

  lemma SameEntry(scores: seq<real>, k: nat, b: nat, p: nat, q: nat)
    requires k > 0 && b > 0 && Scores(scores) && p < q < Span(k, b)
    requires Pool(scores, k, b, b)[p].doc == Pool(scores, k, b, b)[q].doc
    ensures Pool(scores, k, b, b)[p].doc == NO_DOC
  {
    hide Pool, Local, Strided, Sorted, AllHonest, Has, Missed;
    var d := Pool(scores, k, b, b)[p].doc;
    var t, i := Owner(k, b, p);
    var u, j := Owner(k, b, q);
    PoolAt(scores, k, b, b, t, i);
    PoolAt(scores, k, b, b, u, j);
    LocalBest(scores, k, t, b);
    LocalBest(scores, k, u, b);
    if d != NO_DOC {
      StridedAbove(t, b, |scores|);
      OneStride(d, b, |scores|);
    }
  }

  lemma PoolKeeps(scores: seq<real>, k: nat, b: nat, d: nat)
    requires k > 0 && b > 0 && Scores(scores) && d < |scores|
    ensures Has(Pool(scores, k, b, b), d) || Beaten(Pool(scores, k, b, b), k, scores[d])
  {
    hide Pool, Local, Strided, Sorted, AllHonest, Once, Within;
    var pool, t := Pool(scores, k, b, b), d % b;
    OneStride(d, b, |scores|);
    var l := Local(scores, k, t, b);
    LocalBest(scores, k, t, b);
    PoolAt(scores, k, b, b, t, k - 1);
    if Has(l, d) {
      var i :| 0 <= i < |l| && l[i].doc == d;
      PoolAt(scores, k, b, b, t, i);
      assert pool[Span(k, t) + i].doc == d;
    } else {
      forall p | Span(k, t) <= p < Span(k, t) + k ensures pool[p].score >= scores[d] {
        PoolAt(scores, k, b, b, t, p - Span(k, t));
      }
      assert Block(pool, Span(k, t), k, scores[d]);
    }
  }

  lemma PoolFirst(scores: seq<real>, k: nat, b: nat)
    requires k > 0 && b > 0 && Scores(scores)
    ensures Span(k, b) > 0 && (Pool(scores, k, b, b)[0].doc == NO_DOC <==> scores == [])
  {
    hide Pool, Local, Once;
    var l := Local(scores, k, 0, b);
    LocalBest(scores, k, 0, b);
    PoolAt(scores, k, b, b, 0, 0);
    if scores != [] {
      assert 0 in Strided(0, b, |scores|);
      if Has(l, 0) {
        var i :| 0 <= i < |l| && l[i].doc == 0;
        assert l[0].score >= l[i].score;
      }
      assert l[0].score > SENTINEL;
    }
  }

  // ----- the rounds -----------------------------------------------------------------------

  // An entry not yet taken that holds a document.
  predicate Live(pool: seq<Hit>, taken: seq<nat>, q: nat) {
    q < |pool| && q !in taken && pool[q].doc != NO_DOC
  }

  ghost predicate Top(pool: seq<Hit>, taken: seq<nat>, p: nat) {
    Live(pool, taken, p) && forall q: nat :: Live(pool, taken, q) ==> pool[q].score <= pool[p].score
  }

  // One round takes the best live entry; with none left it reports entry 0 again.
  ghost predicate Round(pool: seq<Hit>, taken: seq<nat>, p: nat, h: Hit) {
    || (Top(pool, taken, p) && h == pool[p])
    || ((forall q: nat :: !Live(pool, taken, q)) && p == 0 && pool != [] && h == Hit(SENTINEL, pool[0].doc))
  }

  ghost predicate Chosen(pool: seq<Hit>, picks: seq<nat>, hits: seq<Hit>) {
    |picks| == |hits| && forall r :: 0 <= r < |hits| ==> Round(pool, picks[..r], picks[r], hits[r])
  }

  lemma ChosenMore(pool: seq<Hit>, picks: seq<nat>, hits: seq<Hit>, p: nat, h: Hit)
    requires Chosen(pool, picks, hits) && Round(pool, picks, p, h)
    ensures Chosen(pool, picks + [p], hits + [h])
  {
    hide Round;
    forall r | 0 <= r < |hits| + 1 ensures Round(pool, (picks + [p])[..r], (picks + [p])[r], (hits + [h])[r]) {
      assert (picks + [p])[..r] == picks[..r];
      assert r == |picks| ==> picks[..r] == picks;
    }
  }

  // As long as fewer than k entries are taken, a block of k has one left.
  lemma BlockLeft(pool: seq<Hit>, scores: seq<real>, taken: seq<nat>, at: nat, k: nat, v: real) returns (q: nat)
    requires AllHonest(scores, pool) && Block(pool, at, k, v) && v > SENTINEL && |taken| < k
    ensures Live(pool, taken, q) && pool[q].score >= v
  {
    var i := Pigeonhole(seq(k, i => at + i), taken);
    q := at + i;
    assert Honest(scores, pool[q]);
  }

  lemma {:induction false} Slots(pool: seq<Hit>, n: nat) returns (slots: seq<nat>)
    requires forall d: nat :: d < n ==> Has(pool, d)
    ensures |slots| == n && forall d :: 0 <= d < n ==> slots[d] < |pool| && pool[slots[d]].doc == d
  {
    if n == 0 {
      slots := [];
    } else {
      slots := Slots(pool, n - 1);
      assert Has(pool, n - 1);
      var p :| 0 <= p < |pool| && pool[p].doc == n - 1;
      slots := slots + [p];
    }
  }

  // With at least k documents, every one of the k rounds finds a live entry.
  lemma SomeLive(pool: seq<Hit>, scores: seq<real>, k: nat, taken: seq<nat>) returns (q: nat)
    requires Scores(scores) && Complete(pool, scores, k) && |taken| < k <= |scores|
    ensures Live(pool, taken, q)
  {
    if d: nat :| d < |scores| && !Has(pool, d) {
      var at: nat :| Block(pool, at, k, scores[d]);
      q := BlockLeft(pool, scores, taken, at, k, scores[d]);
    } else {
      var slots := Slots(pool, |scores|);
      var i := Pigeonhole(slots, taken);
      q := slots[i];
    }
  }

  // ----- the answer --------------------------------------------------------------------------

  ghost predicate IsTopK(scores: seq<real>, k: nat, hits: seq<Hit>) {
    && |hits| == (if k <= |scores| then k else |scores|)
    && (forall i :: 0 <= i < |hits| ==> hits[i].doc < |scores| && hits[i].score == scores[hits[i].doc])
    && (forall i, j :: 0 <= i < j < |hits| ==> hits[i].doc != hits[j].doc && hits[i].score >= hits[j].score)
    && forall d: nat :: d < |scores| && !Has(hits, d) ==> NoneWorse(hits, scores[d])
  }

  ghost predicate NoneWorse(hits: seq<Hit>, v: real) {
    forall i :: 0 <= i < |hits| ==> hits[i].score >= v
  }

  // The host drops the pairs without a document.
  function Downloaded(hits: seq<Hit>): seq<Hit> {
    if hits == [] then []
    else if hits[0].doc != NO_DOC then [hits[0]] + Downloaded(hits[1..])
    else Downloaded(hits[1..])
  }

  lemma {:induction false} AllDownloaded(hits: seq<Hit>)
    ensures (forall i :: 0 <= i < |hits| ==> hits[i].doc != NO_DOC) ==> Downloaded(hits) == hits
    ensures (forall i :: 0 <= i < |hits| ==> hits[i].doc == NO_DOC) ==> Downloaded(hits) == []
  {
    if hits != [] {
      assert forall i :: 0 <= i < |hits| - 1 ==> hits[1..][i] == hits[i + 1];
      AllDownloaded(hits[1..]);
    }
  }

  lemma EveryTop(pool: seq<Hit>, scores: seq<real>, k: nat, picks: seq<nat>, hits: seq<Hit>, r: nat)
    requires Scores(scores) && Complete(pool, scores, k) && Chosen(pool, picks, hits) && r < |hits| == k <= |scores|
    ensures picks[r] < |pool| && Top(pool, picks[..r], picks[r]) && hits[r] == pool[picks[r]]
  {
    hide Complete;
    var q := SomeLive(pool, scores, k, picks[..r]);
    assert Round(pool, picks[..r], picks[r], hits[r]);
  }

  lemma LaterPick(pool: seq<Hit>, picks: seq<nat>, i: nat, j: nat)
    requires i < j < |picks| && Top(pool, picks[..i], picks[i]) && Top(pool, picks[..j], picks[j]) && Once(pool)
    ensures pool[picks[i]].doc != pool[picks[j]].doc && pool[picks[i]].score >= pool[picks[j]].score
  {
    assert picks[i] == picks[..j][i];
    assert forall x :: x in picks[..i] ==> x in picks[..j];
    assert Live(pool, picks[..i], picks[j]);
  }

  lemma ChosenBest(pool: seq<Hit>, scores: seq<real>, k: nat, picks: seq<nat>, hits: seq<Hit>)
    requires Scores(scores) && Complete(pool, scores, k) && Chosen(pool, picks, hits) && |hits| == k <= |scores|
    ensures IsTopK(scores, k, hits) && Downloaded(hits) == hits
  {
    hide Scores, Round, Top, Beaten, Has, NoneWorse, Once, Downloaded;
    forall r: nat | r < k
      ensures picks[r] < |pool| && Top(pool, picks[..r], picks[r]) && hits[r] == pool[picks[r]]
    {
      EveryTop(pool, scores, k, picks, hits, r);
    }
    forall r: nat | r < k ensures hits[r].doc < |scores| && hits[r].score == scores[hits[r].doc] && hits[r].doc != NO_DOC {
      TopLive(pool, picks[..r], picks[r]);
    }
    forall i, j | 0 <= i < j < k ensures hits[i].doc != hits[j].doc && hits[i].score >= hits[j].score {
      LaterPick(pool, picks, i, j);
    }
    forall d: nat | d < |scores| && !Has(hits, d) ensures NoneWorse(hits, scores[d]) {
      LeftOutWorse(pool, scores, k, picks, hits, d);
    }
    AllDownloaded(hits);
  }

  lemma TopLive(pool: seq<Hit>, taken: seq<nat>, p: nat)
    requires Top(pool, taken, p)
    ensures Live(pool, taken, p)
  {
  }

  lemma LeftOutWorse(pool: seq<Hit>, scores: seq<real>, k: nat, picks: seq<nat>, hits: seq<Hit>, d: nat)
    requires Scores(scores) && Complete(pool, scores, k) && |picks| == |hits| == k
    requires forall r: nat :: r < k ==> Top(pool, picks[..r], picks[r]) && hits[r] == pool[picks[r]]
    requires d < |scores| && !Has(hits, d)
    ensures NoneWorse(hits, scores[d])
  {
    forall r: nat | r < k ensures hits[r].score >= scores[d] {
      if Has(pool, d) {
        var p :| 0 <= p < |pool| && pool[p].doc == d;
        NotPicked(pool, picks, hits, d, p);
        assert Live(pool, picks[..r], p);
      } else {
        var at: nat :| Block(pool, at, k, scores[d]);
        var q := BlockLeft(pool, scores, picks[..r], at, k, scores[d]);
      }
    }
  }

  lemma NotPicked(pool: seq<Hit>, picks: seq<nat>, hits: seq<Hit>, d: nat, p: nat)
    requires |picks| == |hits| && forall r: nat :: r < |hits| ==> picks[r] < |pool| && hits[r] == pool[picks[r]]
    requires p < |pool| && pool[p].doc == d && !Has(hits, d)
    ensures p !in picks
  {
    assert forall r: nat :: r < |hits| ==> hits[r].doc != d;
  }

  // With fewer documents than k the rounds run dry: entry 0 is reported again, so
  // the answer has k entries unless there are no documents at all.
  lemma RunDry(pool: seq<Hit>, scores: seq<real>, k: nat, picks: seq<nat>, hits: seq<Hit>)
    requires Scores(scores) && Complete(pool, scores, k) && Chosen(pool, picks, hits) && |hits| == k > |scores|
    ensures IsTopK(scores, k, Downloaded(hits)) <==> scores == []
  {
    AllDownloaded(hits);
    forall r: nat | r < k ensures hits[r].doc == NO_DOC <==> scores == [] {
      assert Round(pool, picks[..r], picks[r], hits[r]);
      if scores == [] {
        assert forall q: nat :: q < |pool| ==> Honest(scores, pool[q]);
      }
    }
  }

  lemma ChosenExact(pool: seq<Hit>, scores: seq<real>, k: nat, picks: seq<nat>, hits: seq<Hit>)
    requires Scores(scores) && Complete(pool, scores, k) && Chosen(pool, picks, hits) && |hits| == k
    ensures IsTopK(scores, k, Downloaded(hits)) <==> k <= |scores| || scores == []
  {
    hide *;
    if k <= |scores| {
      ChosenBest(pool, scores, k, picks, hits);
    } else {
      RunDry(pool, scores, k, picks, hits);
    }
  }
}
