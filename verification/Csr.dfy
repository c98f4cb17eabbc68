// Postings in compressed sparse rows. `IsCsr` says what the rows of a bag of
// (ord, doc) keys are, whatever order or chunks the keys came in; it determines
// them. KeysToCsr builds them with buckets, per-bucket sorts, run lengths and a
// forward fill.
module Csr {
  import opened Bits
  import opened Wire
  import opened StatsPass

  const BUCKETS := 128

  // ord << 32 | doc
  function Key(ord: nat, doc: nat): nat { TWO_32 * ord + doc }
  function KeyOrd(key: nat): nat { key / TWO_32 }
  function KeyDoc(key: nat): nat { key % TWO_32 }

  lemma KeyParts(ord: nat, doc: nat)
    requires doc < TWO_32
    ensures KeyOrd(Key(ord, doc)) == ord && KeyDoc(Key(ord, doc)) == doc
  {
  }

  lemma KeyWhole(k: nat)
    ensures k == Key(KeyOrd(k), KeyDoc(k)) && KeyDoc(k) < TWO_32
  {
  }

  lemma KeyOrder(k: nat, t: nat)
    ensures k < Key(t, 0) <==> KeyOrd(k) < t
  {
  }

  datatype Postings = Postings(docs: seq<nat>, freqs: seq<nat>, rowOffsets: seq<nat>, total: nat)

  // Row r belongs to the span of `ord`.
  predicate InRow(p: Postings, ord: nat, r: nat) {
    ord + 1 < |p.rowOffsets| && p.rowOffsets[ord] <= r < p.rowOffsets[ord + 1]
  }

  ghost predicate Shaped(p: Postings, n: nat) {
    && |p.rowOffsets| == n + 1 && p.rowOffsets[0] == 0
    && p.rowOffsets[n] == |p.docs| == |p.freqs|
    && forall s, t :: 0 <= s <= t <= n ==> p.rowOffsets[s] <= p.rowOffsets[t]
  }

  ghost predicate Counted(p: Postings, keys: multiset<nat>, ord: nat, r: nat)
    requires r < |p.docs| == |p.freqs|
  {
    p.docs[r] < TWO_32 && p.freqs[r] == keys[Key(ord, p.docs[r])] && p.freqs[r] > 0
  }

  ghost predicate Listed(p: Postings, ord: nat, doc: nat) {
    exists r :: 0 <= r < |p.docs| && InRow(p, ord, r) && p.docs[r] == doc
  }

  // Every ord's span lists, in ascending order, the docs of its keys with the
  // number of times each key occurs.
  ghost predicate IsCsr(p: Postings, keys: multiset<nat>, n: nat) {
    && Shaped(p, n)
    && (forall ord, r :: 0 <= ord < n && 0 <= r < |p.docs| && InRow(p, ord, r) ==> Counted(p, keys, ord, r))
    && (forall ord, r, s :: 0 <= ord < n && 0 <= r < s < |p.docs| && InRow(p, ord, r) && InRow(p, ord, s)
                            ==> p.docs[r] < p.docs[s])
    && (forall k :: k in keys ==> Listed(p, KeyOrd(k), KeyDoc(k)))
    && p.total == |keys|
  }

  // ----- the rows are determined ---------------------------------------------------

  lemma AscendingTail(s: seq<int>)
    requires Ascending(s) && s != []
    ensures Ascending(s[1..]) && s[0] !in s[1..]
  {
  }

  lemma HeadIn(s: seq<int>)
    requires s != []
    ensures s[0] in s
  {
  }

  lemma {:induction false} AscendingSame(s: seq<int>, t: seq<int>)
    requires Ascending(s) && Ascending(t) && forall x :: x in s <==> x in t
    ensures s == t
  {
    if s != [] {
      HeadIn(s);
    }
    if t != [] {
      HeadIn(t);
    }
    if s != [] {
      assert s[0] in t && t[0] in s;
      assert s[0] == t[0];
      AscendingTail(s);
      AscendingTail(t);
      forall x ensures x in s[1..] <==> x in t[1..] {
        if x != s[0] {
          assert x in s <==> x in s[1..] by { assert s == [s[0]] + s[1..]; }
          assert x in t <==> x in t[1..] by { assert t == [t[0]] + t[1..]; }
        }
      }
      AscendingSame(s[1..], t[1..]);
      assert s == [s[0]] + s[1..] && t == [t[0]] + t[1..];
    }
  }

  function RowDocs(p: Postings, ord: nat): seq<nat>
    requires ord + 1 < |p.rowOffsets| && p.rowOffsets[ord] <= p.rowOffsets[ord + 1] <= |p.docs|
  {
    p.docs[p.rowOffsets[ord]..p.rowOffsets[ord + 1]]
  }

  lemma RowBounds(p: Postings, keys: multiset<nat>, n: nat, ord: nat)
    requires IsCsr(p, keys, n) && ord < n
    ensures ord + 1 < |p.rowOffsets| && p.rowOffsets[ord] <= p.rowOffsets[ord + 1] <= |p.docs|
  {
    hide Counted, Listed, InRow;
    assert p.rowOffsets[ord + 1] <= p.rowOffsets[n];
  }

  lemma RowHas(p: Postings, keys: multiset<nat>, n: nat, ord: nat, i: nat, j: nat)
    requires IsCsr(p, keys, n) && ord < n
    requires p.rowOffsets[ord] <= i <= j < p.rowOffsets[ord + 1] <= |p.docs|
    ensures Counted(p, keys, ord, i) && (i < j ==> p.docs[i] < p.docs[j])
  {
    hide Counted, Listed;
    assert InRow(p, ord, i) && InRow(p, ord, j);
  }

  lemma RowGives(p: Postings, keys: multiset<nat>, n: nat, ord: nat, d: nat) returns (r: nat)
    requires IsCsr(p, keys, n) && ord < n && d < TWO_32 && Key(ord, d) in keys
    ensures r < |p.docs| && InRow(p, ord, r) && p.docs[r] == d
  {
    hide Counted, Key, KeyOrd, KeyDoc, InRow;
    KeyParts(ord, d);
    assert Listed(p, KeyOrd(Key(ord, d)), KeyDoc(Key(ord, d)));
    r :| 0 <= r < |p.docs| && InRow(p, ord, r) && p.docs[r] == d;
  }

  lemma RowDocsAre(p: Postings, keys: multiset<nat>, n: nat, ord: nat)
    requires IsCsr(p, keys, n) && ord < n
    ensures p.rowOffsets[ord] <= p.rowOffsets[ord + 1] <= |p.docs|
    ensures Ascending(RowDocs(p, ord))
    ensures forall d: nat :: d in RowDocs(p, ord) <==> d < TWO_32 && Key(ord, d) in keys
  {
    hide Key, KeyOrd, KeyDoc, IsCsr;
    RowBounds(p, keys, n, ord);
    var row := RowDocs(p, ord);
    var base := p.rowOffsets[ord];
    forall i, j | 0 <= i < j < |row| ensures row[i] < row[j] {
      RowHas(p, keys, n, ord, base + i, base + j);
    }
    forall d: nat ensures d in row <==> d < TWO_32 && Key(ord, d) in keys {
      if d in row {
        var i :| 0 <= i < |row| && row[i] == d;
        RowHas(p, keys, n, ord, base + i, base + i);
      }
      if d < TWO_32 && Key(ord, d) in keys {
        var r := RowGives(p, keys, n, ord, d);
        assert row[r - base] == d;
      }
    }
  }

  lemma {:induction false} SamePrefix(a: Postings, b: Postings, keys: multiset<nat>, n: nat, t: nat)
    requires IsCsr(a, keys, n) && IsCsr(b, keys, n) && t <= n
    ensures a.rowOffsets[t] == b.rowOffsets[t] <= |a.docs| && a.rowOffsets[t] <= |b.docs|
    ensures a.docs[..a.rowOffsets[t]] == b.docs[..a.rowOffsets[t]]
    decreases t
  {
    hide Counted, Listed;
    if t > 0 {
      SamePrefix(a, b, keys, n, t - 1);
      RowDocsAre(a, keys, n, t - 1);
      RowDocsAre(b, keys, n, t - 1);
      AscendingSame(RowDocs(a, t - 1), RowDocs(b, t - 1));
      var base := a.rowOffsets[t - 1];
      assert |RowDocs(a, t - 1)| == a.rowOffsets[t] - base && |RowDocs(b, t - 1)| == b.rowOffsets[t] - base;
      assert a.docs[..a.rowOffsets[t]] == a.docs[..base] + RowDocs(a, t - 1);
      assert b.docs[..b.rowOffsets[t]] == b.docs[..base] + RowDocs(b, t - 1);
    }
  }

  // The span a row lies in.
  lemma {:induction false} RowOf(p: Postings, n: nat, r: nat, t: nat) returns (ord: nat)
    requires Shaped(p, n) && t <= n && r < p.rowOffsets[t]
    ensures ord < t && InRow(p, ord, r)
    decreases t
  {
    if r >= p.rowOffsets[t - 1] {
      ord := t - 1;
    } else {
      ord := RowOf(p, n, r, t - 1);
    }
  }

  lemma CsrUnique(a: Postings, b: Postings, keys: multiset<nat>, n: nat)
    requires IsCsr(a, keys, n) && IsCsr(b, keys, n)
    ensures a == b
  {
    hide Listed, Key;
    SamePrefix(a, b, keys, n, n);
    assert a.docs == a.docs[..a.rowOffsets[n]] && b.docs == b.docs[..b.rowOffsets[n]];
    forall t | 0 <= t <= n ensures a.rowOffsets[t] == b.rowOffsets[t] {
      SamePrefix(a, b, keys, n, t);
    }
    assert a.rowOffsets == b.rowOffsets;
    forall r | 0 <= r < |a.docs| ensures a.freqs[r] == b.freqs[r] {
      var ord := RowOf(a, n, r, n);
      assert InRow(b, ord, r);
      assert Counted(a, keys, ord, r) && Counted(b, keys, ord, r);
    }
    assert a.freqs == b.freqs;
  }

  // ----- rows from the distinct keys in order ----------------------------------------

  // `d` lists the distinct keys in order; docs and freqs follow it.
  ghost predicate RowsFor(keys: multiset<nat>, d: seq<nat>, docs: seq<nat>, freqs: seq<nat>) {
    && |docs| == |d| && |freqs| == |d| && Ascending(d)
    && (forall r :: 0 <= r < |d| ==> docs[r] == KeyDoc(d[r]) && freqs[r] == keys[d[r]] && d[r] in keys)
    && (forall k :: k in keys ==> k in d)
  }

  // Exactly the entries before e are below x.
  ghost predicate SplitsAt(d: seq<nat>, x: nat, e: nat) {
    && e <= |d|
    && (forall r :: 0 <= r < e ==> d[r] < x)
    && (forall r :: e <= r < |d| ==> x <= d[r])
  }

  lemma CsrFromRows(p: Postings, keys: multiset<nat>, n: nat, d: seq<nat>)
    requires RowsFor(keys, d, p.docs, p.freqs) && p.total == |keys|
    requires forall k :: k in keys ==> KeyOrd(k) < n
    requires |p.rowOffsets| == n + 1
    requires forall t :: 0 <= t <= n ==> SplitsAt(d, Key(t, 0), p.rowOffsets[t])
    ensures IsCsr(p, keys, n)
  {
    hide Key, KeyOrd, KeyDoc, IsCsr, Listed;
    assert Shaped(p, n) by { SplitsShape(p, keys, n, d); }
    forall ord, r | 0 <= ord < n && 0 <= r < |p.docs| && InRow(p, ord, r)
      ensures KeyOrd(d[r]) == ord && Counted(p, keys, ord, r)
    {
      SpanOf(p, n, d, ord, r);
      KeyWhole(d[r]);
    }
    forall ord, r, s | 0 <= ord < n && 0 <= r < s < |p.docs| && InRow(p, ord, r) && InRow(p, ord, s)
      ensures p.docs[r] < p.docs[s]
    {
      SpanOf(p, n, d, ord, r);
      SpanOf(p, n, d, ord, s);
      SameOrd(d[r], d[s]);
    }
    forall k | k in keys ensures Listed(p, KeyOrd(k), KeyDoc(k)) {
      var r :| 0 <= r < |d| && d[r] == k;
      InSpan(p, keys, n, d, r);
    }
    CsrParts(p, keys, n);
  }

  lemma CsrParts(p: Postings, keys: multiset<nat>, n: nat)
    requires Shaped(p, n) && p.total == |keys|
    requires forall ord, r :: 0 <= ord < n && 0 <= r < |p.docs| && InRow(p, ord, r) ==> Counted(p, keys, ord, r)
    requires forall ord, r, s :: 0 <= ord < n && 0 <= r < s < |p.docs| && InRow(p, ord, r) && InRow(p, ord, s)
                                 ==> p.docs[r] < p.docs[s]
    requires forall k :: k in keys ==> Listed(p, KeyOrd(k), KeyDoc(k))
    ensures IsCsr(p, keys, n)
  {
    hide Counted, Listed, Key, KeyOrd, KeyDoc, InRow;
  }

  lemma SameOrd(j: nat, k: nat)
    requires j < k && KeyOrd(j) == KeyOrd(k)
    ensures KeyDoc(j) < KeyDoc(k)
  {
  }

  lemma SplitsOrdered(d: seq<nat>, x: nat, y: nat, e: nat, f: nat)
    requires SplitsAt(d, x, e) && SplitsAt(d, y, f) && x <= y
    ensures e <= f
  {
    assert f < |d| ==> y <= d[f];
  }

  lemma SplitsShape(p: Postings, keys: multiset<nat>, n: nat, d: seq<nat>)
    requires RowsFor(keys, d, p.docs, p.freqs) && |p.rowOffsets| == n + 1
    requires forall k :: k in keys ==> KeyOrd(k) < n
    requires forall t :: 0 <= t <= n ==> SplitsAt(d, Key(t, 0), p.rowOffsets[t])
    ensures Shaped(p, n)
  {
    hide KeyDoc, KeyOrd;
    var e := p.rowOffsets[n];
    assert SplitsAt(d, Key(0, 0), p.rowOffsets[0]) && SplitsAt(d, Key(n, 0), e);
    if e < |d| {
      assert d[e] in keys;
      KeyOrder(d[e], n);
    }
    assert d == [] || d[0] >= Key(0, 0);
    forall s, t | 0 <= s <= t <= n ensures p.rowOffsets[s] <= p.rowOffsets[t] {
      SplitsOrdered(d, Key(s, 0), Key(t, 0), p.rowOffsets[s], p.rowOffsets[t]);
    }
  }

  lemma SpanOf(p: Postings, n: nat, d: seq<nat>, ord: nat, r: nat)
    requires |p.rowOffsets| == n + 1 && forall t :: 0 <= t <= n ==> SplitsAt(d, Key(t, 0), p.rowOffsets[t])
    requires ord < n && r < |d| && InRow(p, ord, r)
    ensures KeyOrd(d[r]) == ord
  {
    hide Key, KeyOrd;
    assert SplitsAt(d, Key(ord, 0), p.rowOffsets[ord]) && SplitsAt(d, Key(ord + 1, 0), p.rowOffsets[ord + 1]);
    KeyOrder(d[r], ord);
    KeyOrder(d[r], ord + 1);
  }

  lemma InSpan(p: Postings, keys: multiset<nat>, n: nat, d: seq<nat>, r: nat)
    requires RowsFor(keys, d, p.docs, p.freqs) && |p.rowOffsets| == n + 1 && r < |d|
    requires forall k :: k in keys ==> KeyOrd(k) < n
    requires forall t :: 0 <= t <= n ==> SplitsAt(d, Key(t, 0), p.rowOffsets[t])
    ensures Listed(p, KeyOrd(d[r]), KeyDoc(d[r]))
  {
    hide Key, KeyOrd, KeyDoc;
    var ord := KeyOrd(d[r]);
    assert d[r] in keys;
    assert SplitsAt(d, Key(ord, 0), p.rowOffsets[ord]) && SplitsAt(d, Key(ord + 1, 0), p.rowOffsets[ord + 1]);
    KeyOrder(d[r], ord);
    KeyOrder(d[r], ord + 1);
    assert InRow(p, ord, r);
  }

  // ----- buckets ---------------------------------------------------------------------

  function BucketOf(ord: nat, n: nat): (b: nat)
    ensures b < BUCKETS
  {
    var b := BUCKETS * ord / (if n > 0 then n else 1);
    if b < BUCKETS - 1 then b else BUCKETS - 1
  }

  lemma DivMonotone(x: nat, y: nat, m: nat)
    requires x <= y && m > 0
    ensures x / m <= y / m
  {
    var q, r := x / m, y / m;
    assert (r + 1) * m == r * m + m;
    if r < q {
      TimesMonotone(r + 1, q, m);
    }
  }

  lemma BucketMonotone(i: nat, j: nat, n: nat)
    requires BucketOf(i, n) < BucketOf(j, n)
    ensures i < j
  {
    if j <= i {
      DivMonotone(BUCKETS * j, BUCKETS * i, if n > 0 then n else 1);
    }
  }

  // The keys of one bucket, in their order.
  function InBucket(keys: seq<nat>, b: nat, n: nat): seq<nat> {
    if keys == [] then []
    else InBucket(keys[..|keys| - 1], b, n) +
         if BucketOf(KeyOrd(keys[|keys| - 1]), n) == b then [keys[|keys| - 1]] else []
  }

  lemma {:induction false} InBucketAppend(x: seq<nat>, y: seq<nat>, b: nat, n: nat)
    ensures InBucket(x + y, b, n) == InBucket(x, b, n) + InBucket(y, b, n)
    decreases |y|
  {
    hide BucketOf, KeyOrd;
    if y == [] {
      assert x + y == x;
    } else {
      assert (x + y)[..|x + y| - 1] == x + y[..|y| - 1];
      InBucketAppend(x, y[..|y| - 1], b, n);
    }
  }

  ghost predicate Bucketed(local: seq<seq<nat>>, keys: seq<nat>, n: nat) {
    |local| == BUCKETS && forall b :: 0 <= b < BUCKETS ==> local[b] == InBucket(keys, b, n)
  }

  method LocalBuckets(chunk: seq<nat>, n: nat) returns (local: seq<seq<nat>>)
    ensures Bucketed(local, chunk, n)
  {
    hide BucketOf, KeyOrd;
    local := seq(BUCKETS, b => []);
    for i := 0 to |chunk|
      invariant Bucketed(local, chunk[..i], n)
    {
      assert chunk[..i + 1][..i] == chunk[..i];
      var b := BucketOf(KeyOrd(chunk[i]), n);
      local := local[b := local[b] + [chunk[i]]];
    }
    assert chunk[..|chunk|] == chunk;
  }

  // Every chunk is split on its own; a bucket is then gathered chunk by chunk.
  method GatherBuckets(chunks: seq<seq<nat>>, n: nat) returns (buckets: seq<seq<nat>>)
    ensures Bucketed(buckets, Flatten(chunks), n)
  {
    hide InBucket, Flatten;
    var perThread: seq<seq<seq<nat>>> := [];
    for t := 0 to |chunks|
      invariant |perThread| == t
      invariant forall s :: 0 <= s < t ==> Bucketed(perThread[s], chunks[s], n)
    {
      var local := LocalBuckets(chunks[t], n);
      perThread := perThread + [local];
    }
    buckets := [];
    for b := 0 to BUCKETS
      invariant |buckets| == b && forall c :: 0 <= c < b ==> buckets[c] == InBucket(Flatten(chunks), c, n)
    {
      var v: seq<nat> := [];
      NoneGathered(chunks, b, n);
      for t := 0 to |chunks|
        invariant v == InBucket(Flatten(chunks[..t]), b, n)
      {
        FlattenSnoc(chunks, t);
        InBucketAppend(Flatten(chunks[..t]), chunks[t], b, n);
        v := v + perThread[t][b];
      }
      assert chunks[..|chunks|] == chunks;
      buckets := buckets + [v];
    }
  }

  lemma NoneGathered(chunks: seq<seq<nat>>, b: nat, n: nat)
    ensures InBucket(Flatten(chunks[..0]), b, n) == []
  {
  }

  ghost predicate Sorted(s: seq<nat>) {
    forall i, j :: 0 <= i < j < |s| ==> s[i] <= s[j]
  }

  // The standard sort, by insertion.
  method SortKeys(s: seq<nat>) returns (t: seq<nat>)
    ensures Sorted(t) && multiset(t) == multiset(s)
  {
    t := [];
    for i := 0 to |s|
      invariant Sorted(t) && multiset(t) == multiset(s[..i])
    {
      assert s[..i + 1] == s[..i] + [s[i]];
      t := InsertKey(t, s[i]);
    }
    assert s[..|s|] == s;
  }

  method InsertKey(s: seq<nat>, k: nat) returns (t: seq<nat>)
    requires Sorted(s)
    ensures Sorted(t) && multiset(t) == multiset(s) + multiset{k}
  {
    var i := 0;
    while i < |s| && s[i] <= k
      invariant i <= |s| && forall j :: 0 <= j < i ==> s[j] <= k
    {
      i := i + 1;
    }
    t := s[..i] + [k] + s[i..];
    assert s == s[..i] + s[i..];
  }

  // Buckets are handed to the threads in runs of ceil(BUCKETS / threads).
  method SortBuckets(buckets: seq<seq<nat>>, threads: nat) returns (sorted: seq<seq<nat>>)
    requires |buckets| == BUCKETS && threads > 0
    ensures |sorted| == BUCKETS
    ensures forall b :: 0 <= b < BUCKETS ==> Sorted(sorted[b]) && multiset(sorted[b]) == multiset(buckets[b])
  {
    var width := (BUCKETS + threads - 1) / threads;
    DivMonotone(threads, BUCKETS + threads - 1, threads);
    sorted := buckets;
    var start := 0;
    while start < BUCKETS
      invariant |sorted| == BUCKETS && start <= BUCKETS
      invariant forall b :: 0 <= b < start ==> Sorted(sorted[b])
      invariant forall b :: 0 <= b < BUCKETS ==> multiset(sorted[b]) == multiset(buckets[b])
    {
      var end := if start + width < BUCKETS then start + width else BUCKETS;
      for b := start to end
        invariant |sorted| == BUCKETS
        invariant forall c :: 0 <= c < b ==> Sorted(sorted[c])
        invariant forall c :: 0 <= c < BUCKETS ==> multiset(sorted[c]) == multiset(buckets[c])
      {
        var t := SortKeys(sorted[b]);
        sorted := sorted[b := t];
      }
      start := end;
    }
  }

  // ----- run lengths ------------------------------------------------------------------

  // A bucket's rows, and for each ord in it where its rows end.
  datatype BucketOut = BucketOut(docs: seq<nat>, freqs: seq<nat>, ordEnds: seq<(nat, nat)>, total: nat)

  lemma RowsPush(keys: multiset<nat>, d: seq<nat>, docs: seq<nat>, freqs: seq<nat>, key: nat, f: nat)
    requires RowsFor(keys, d, docs, freqs) && f > 0
    requires forall k :: k in keys ==> k < key
    ensures RowsFor(keys[key := f], d + [key], docs + [KeyDoc(key)], freqs + [f])
  {
    hide KeyDoc;
    var all := d + [key];
    forall k | k in keys[key := f] ensures k in all {
      if k != key {
        assert k in keys && k in d;
      }
    }
  }

  // The keys before i are whole runs.
  ghost predicate AtRun(keys: seq<nat>, i: nat) {
    i <= |keys| && (0 < i < |keys| ==> keys[i - 1] < keys[i])
  }

  lemma RunAbove(keys: seq<nat>, i: nat)
    requires Sorted(keys) && AtRun(keys, i) && i < |keys|
    ensures forall k :: k in multiset(keys[..i]) ==> k < keys[i]
  {
    forall k | k in multiset(keys[..i]) ensures k < keys[i] {
      var j :| 0 <= j < i && keys[j] == k;
      assert i > 0 && keys[j] <= keys[i - 1];
    }
  }

  lemma TakeOne(keys: seq<nat>, i: nat)
    requires i < |keys|
    ensures multiset(keys[..i + 1]) == multiset(keys[..i]) + multiset{keys[i]}
  {
    assert keys[..i + 1] == keys[..i] + [keys[i]];
  }

  method OneRun(keys: seq<nat>, start: nat) returns (i: nat)
    requires Sorted(keys) && AtRun(keys, start) && start < |keys|
    ensures start < i <= |keys| && AtRun(keys, i) && keys[i - 1] == keys[start]
    ensures multiset(keys[..i]) == multiset(keys[..start])[keys[start] := i - start]
  {
    RunAbove(keys, start);
    i := start;
    while i < |keys| && keys[i] == keys[start]
      invariant start <= i <= |keys|
      invariant i > start ==> keys[i - 1] == keys[start]
      invariant multiset(keys[..i]) == multiset(keys[..start])[keys[start] := i - start]
    {
      TakeOne(keys, i);
      i := i + 1;
    }
  }

  // The keys before i are whole ords.
  ghost predicate AtOrd(keys: seq<nat>, i: nat) {
    i <= |keys| && (0 < i < |keys| ==> KeyOrd(keys[i - 1]) < KeyOrd(keys[i]))
  }

  lemma OrdIsRun(keys: seq<nat>, i: nat)
    requires AtOrd(keys, i)
    ensures AtRun(keys, i)
  {
  }

  // The rows of d's prefix of `was` entries are done; those after it belong to ord.
  ghost predicate OrdRows(d: seq<nat>, was: nat, ord: nat) {
    && was <= |d|
    && (forall r :: 0 <= r < was ==> KeyOrd(d[r]) < ord)
    && (forall r :: was <= r < |d| ==> KeyOrd(d[r]) == ord)
  }

  ghost predicate IsOut(keys: seq<nat>, i: nat, d: seq<nat>, o: BucketOut)
    requires i <= |keys|
  {
    RowsFor(multiset(keys[..i]), d, o.docs, o.freqs) && o.total == i
  }

  lemma RowsBelow(keys: seq<nat>, i: nat, d: seq<nat>, o: BucketOut, ord: nat)
    requires Sorted(keys) && AtOrd(keys, i) && i < |keys| && KeyOrd(keys[i]) == ord && IsOut(keys, i, d, o)
    ensures OrdRows(d, |d|, ord)
  {
    hide KeyDoc;
    OrdIsRun(keys, i);
    RunAbove(keys, i);
    forall r | 0 <= r < |d| ensures KeyOrd(d[r]) < ord {
      assert d[r] in multiset(keys[..i]);
      var j :| 0 <= j < i && keys[j] == d[r];
      assert keys[j] <= keys[i - 1];
    }
  }

  method OneOrd(keys: seq<nat>, start: nat, o: BucketOut, ghost d: seq<nat>) returns (i: nat, o': BucketOut, ghost d': seq<nat>)
    requires Sorted(keys) && AtOrd(keys, start) && start < |keys| && IsOut(keys, start, d, o)
    ensures start < i && AtOrd(keys, i) && IsOut(keys, i, d', o')
    ensures o'.ordEnds == o.ordEnds && d <= d' && |d| < |d'| && OrdRows(d', |d|, KeyOrd(keys[start]))
  {
    hide KeyOrd, KeyDoc, IsOut, OrdRows, Sorted, AtRun, AtOrd;
    var ord := KeyOrd(keys[start]);
    i, o', d' := start, o, d;
    OrdIsRun(keys, start);
    RowsBelow(keys, start, d, o, ord);
    while i < |keys| && KeyOrd(keys[i]) == ord
      invariant start <= i <= |keys| && AtRun(keys, i) && IsOut(keys, i, d', o')
      invariant i > start ==> KeyOrd(keys[i - 1]) == ord
      invariant o'.ordEnds == o.ordEnds && d <= d' && OrdRows(d', |d|, ord)
      invariant i > start ==> |d| < |d'|
    {
      var key := keys[i];
      var next := OneRun(keys, i);
      RunAdded(keys, i, next, d', o', |d|, ord);
      o' := BucketOut(o'.docs + [KeyDoc(key)], o'.freqs + [next - i], o'.ordEnds, o'.total + (next - i));
      d' := d' + [key];
      i := next;
    }
    OrdEnds(keys, i, ord);
  }

  lemma RunAdded(keys: seq<nat>, i: nat, next: nat, d: seq<nat>, o: BucketOut, was: nat, ord: nat)
    requires Sorted(keys) && AtRun(keys, i) && i < next <= |keys| && IsOut(keys, i, d, o) && OrdRows(d, was, ord)
    requires KeyOrd(keys[i]) == ord
    requires multiset(keys[..next]) == multiset(keys[..i])[keys[i] := next - i]
    ensures IsOut(keys, next, d + [keys[i]], BucketOut(o.docs + [KeyDoc(keys[i])], o.freqs + [next - i], o.ordEnds, o.total + (next - i)))
    ensures OrdRows(d + [keys[i]], was, ord)
  {
    hide KeyOrd, KeyDoc, RowsFor, Sorted;
    RunAbove(keys, i);
    RowsPush(multiset(keys[..i]), d, o.docs, o.freqs, keys[i], next - i);
  }

  lemma OrdEnds(keys: seq<nat>, i: nat, ord: nat)
    requires Sorted(keys) && 0 < i <= |keys| && KeyOrd(keys[i - 1]) == ord && (i < |keys| ==> KeyOrd(keys[i]) != ord)
    ensures AtOrd(keys, i)
  {
    hide KeyOrd;
    if i < |keys| {
      OrdsClimb(keys[i - 1], keys[i]);
    }
  }

  lemma OrdsClimb(j: nat, k: nat)
    requires j <= k
    ensures KeyOrd(j) <= KeyOrd(k)
  {
  }

  ghost predicate HasOrd(d: seq<nat>, ord: nat) {
    exists r :: 0 <= r < |d| && KeyOrd(d[r]) == ord
  }

  ghost predicate HasEnd(ends: seq<(nat, nat)>, ord: nat) {
    exists j :: 0 <= j < |ends| && ends[j].0 == ord
  }

  // Each ord of d has one entry, which says where its rows end.
  ghost predicate EndsFor(d: seq<nat>, ends: seq<(nat, nat)>) {
    && (forall j :: 0 <= j < |ends| ==> HasOrd(d, ends[j].0) && SplitsAt(d, Key(ends[j].0 + 1, 0), ends[j].1))
    && (forall r :: 0 <= r < |d| ==> HasEnd(ends, KeyOrd(d[r])))
  }

  lemma SplitKept(d: seq<nat>, d': seq<nat>, x: nat, e: nat)
    requires SplitsAt(d, x, e) && d <= d' && forall r :: |d| <= r < |d'| ==> x <= d'[r]
    ensures SplitsAt(d', x, e)
  {
  }

  lemma HasOrdKept(d: seq<nat>, d': seq<nat>, ord: nat)
    requires d <= d' && HasOrd(d, ord)
    ensures HasOrd(d', ord)
  {
    hide KeyOrd;
    var r :| 0 <= r < |d| && KeyOrd(d[r]) == ord;
    assert d'[r] == d[r];
  }

  lemma OrdDone(d: seq<nat>, ends: seq<(nat, nat)>, d': seq<nat>, ord: nat)
    requires EndsFor(d, ends) && d <= d' && |d| < |d'| && OrdRows(d', |d|, ord)
    ensures EndsFor(d', ends + [(ord, |d'|)])
  {
    hide KeyOrd, Key, SplitsAt, HasOrd, HasEnd;
    var all := ends + [(ord, |d'|)];
    forall j | 0 <= j < |all| ensures HasOrd(d', all[j].0) && SplitsAt(d', Key(all[j].0 + 1, 0), all[j].1) {
      if j < |ends| {
        HasOrdKept(d, d', ends[j].0);
        OldEndKept(d, ends, d', ord, j);
      } else {
        NewEnd(d, d', ord);
      }
    }
    forall r | 0 <= r < |d'| ensures HasEnd(all, KeyOrd(d'[r])) {
      if r < |d| {
        assert d'[r] == d[r];
        EndKept(ends, (ord, |d'|), KeyOrd(d[r]));
      } else {
        LastEnd(ends, (ord, |d'|));
      }
    }
  }

  lemma EndKept(ends: seq<(nat, nat)>, e: (nat, nat), ord: nat)
    requires HasEnd(ends, ord)
    ensures HasEnd(ends + [e], ord)
  {
    var j :| 0 <= j < |ends| && ends[j].0 == ord;
    assert (ends + [e])[j] == ends[j];
  }

  lemma LastEnd(ends: seq<(nat, nat)>, e: (nat, nat))
    ensures HasEnd(ends + [e], e.0)
  {
    assert (ends + [e])[|ends|] == e;
  }

  lemma NewEnd(d: seq<nat>, d': seq<nat>, ord: nat)
    requires |d| < |d'| && OrdRows(d', |d|, ord)
    ensures HasOrd(d', ord) && SplitsAt(d', Key(ord + 1, 0), |d'|)
  {
    hide KeyOrd, Key;
    assert KeyOrd(d'[|d|]) == ord;
    forall r | 0 <= r < |d'| ensures d'[r] < Key(ord + 1, 0) {
      KeyOrder(d'[r], ord + 1);
    }
  }

  lemma OldEndKept(d: seq<nat>, ends: seq<(nat, nat)>, d': seq<nat>, ord: nat, j: nat)
    requires EndsFor(d, ends) && d <= d' && OrdRows(d', |d|, ord) && j < |ends|
    ensures SplitsAt(d', Key(ends[j].0 + 1, 0), ends[j].1)
  {
    hide KeyOrd, Key, HasEnd;
    var q := ends[j].0;
    assert HasOrd(d, q);
    var s :| 0 <= s < |d| && KeyOrd(d[s]) == q;
    assert d'[s] == d[s];
    forall r | |d| <= r < |d'| ensures Key(q + 1, 0) <= d'[r] {
      KeyOrder(d'[r], q + 1);
    }
    SplitKept(d, d', Key(q + 1, 0), ends[j].1);
  }

  // The run lengths of one sorted bucket.
  method RunLengths(keys: seq<nat>) returns (o: BucketOut, ghost d: seq<nat>)
    requires Sorted(keys)
    ensures RowsFor(multiset(keys), d, o.docs, o.freqs) && o.total == |keys| && EndsFor(d, o.ordEnds)
  {
    hide KeyOrd, KeyDoc, EndsFor, OrdRows, RowsFor;
    o, d := BucketOut([], [], [], 0), [];
    var i := 0;
    NoRows(keys);
    while i < |keys|
      invariant AtOrd(keys, i) && IsOut(keys, i, d, o) && EndsFor(d, o.ordEnds)
    {
      var ord := KeyOrd(keys[i]);
      ghost var was := d;
      i, o, d := OneOrd(keys, i, o, d);
      OrdDone(was, o.ordEnds, d, ord);
      RowsLength(keys, i, d, o);
      o := BucketOut(o.docs, o.freqs, o.ordEnds + [(ord, |o.docs|)], o.total);
    }
    assert keys[..|keys|] == keys;
  }

  lemma RowsLength(keys: seq<nat>, i: nat, d: seq<nat>, o: BucketOut)
    requires i <= |keys| && IsOut(keys, i, d, o)
    ensures |d| == |o.docs|
  {
  }

  lemma NoRows(keys: seq<nat>)
    ensures IsOut(keys, 0, [], BucketOut([], [], [], 0)) && EndsFor([], [])
  {
  }

  // ----- stitching the buckets ----------------------------------------------------------

  lemma RowsAppend(a: multiset<nat>, d: seq<nat>, docs: seq<nat>, freqs: seq<nat>,
                   b: multiset<nat>, e: seq<nat>, docs': seq<nat>, freqs': seq<nat>)
    requires RowsFor(a, d, docs, freqs) && RowsFor(b, e, docs', freqs')
    requires forall j, k :: j in a && k in b ==> j < k
    ensures RowsFor(a + b, d + e, docs + docs', freqs + freqs')
  {
    hide KeyDoc, RowsFor;
    RowsAppendKeys(a, d, docs, freqs, b, e, docs', freqs');
    RowsAppendOrder(a, d, docs, freqs, b, e, docs', freqs');
    RowsTogether(a + b, d + e, docs + docs', freqs + freqs');
  }

  lemma RowsTogether(keys: multiset<nat>, d: seq<nat>, docs: seq<nat>, freqs: seq<nat>)
    requires |docs| == |d| && |freqs| == |d| && Ascending(d) && forall k :: k in keys ==> k in d
    requires forall r :: 0 <= r < |d| ==> docs[r] == KeyDoc(d[r]) && freqs[r] == keys[d[r]] && d[r] in keys
    ensures RowsFor(keys, d, docs, freqs)
  {
  }

  lemma RowsAppendKeys(a: multiset<nat>, d: seq<nat>, docs: seq<nat>, freqs: seq<nat>,
                       b: multiset<nat>, e: seq<nat>, docs': seq<nat>, freqs': seq<nat>)
    requires RowsFor(a, d, docs, freqs) && RowsFor(b, e, docs', freqs')
    requires forall j, k :: j in a && k in b ==> j < k
    ensures |docs + docs'| == |d + e| && |freqs + freqs'| == |d + e| && forall k :: k in a + b ==> k in d + e
    ensures forall r :: 0 <= r < |d + e| ==>
              (docs + docs')[r] == KeyDoc((d + e)[r]) && (freqs + freqs')[r] == (a + b)[(d + e)[r]] && (d + e)[r] in a + b
  {
    hide KeyDoc, Ascending;
    var all := d + e;
    forall r | 0 <= r < |all|
      ensures (docs + docs')[r] == KeyDoc(all[r]) && (freqs + freqs')[r] == (a + b)[all[r]] && all[r] in a + b
    {
      if r < |d| {
        assert all[r] in a && all[r] !in b;
      } else {
        assert all[r] == e[r - |d|];
        assert all[r] in b && all[r] !in a;
      }
    }
    forall k | k in a + b ensures k in all {
      assert k in d || k in e;
    }
  }

  lemma RowsAppendOrder(a: multiset<nat>, d: seq<nat>, docs: seq<nat>, freqs: seq<nat>,
                        b: multiset<nat>, e: seq<nat>, docs': seq<nat>, freqs': seq<nat>)
    requires RowsFor(a, d, docs, freqs) && RowsFor(b, e, docs', freqs')
    requires forall j, k :: j in a && k in b ==> j < k
    ensures Ascending(d + e)
  {
    hide KeyDoc;
    forall i, j | 0 <= i < |d| && 0 <= j < |e| ensures d[i] < e[j] {
      assert d[i] in a && e[j] in b;
    }
  }

  // Every key belongs to a bucket before b, and to one of the n ords.
  ghost predicate KeysBefore(keys: multiset<nat>, b: nat, n: nat) {
    forall k :: k in keys ==> BucketOf(KeyOrd(k), n) < b && KeyOrd(k) < n
  }

  ghost predicate KeysIn(keys: seq<nat>, b: nat, n: nat) {
    forall k :: k in multiset(keys) ==> BucketOf(KeyOrd(k), n) == b && KeyOrd(k) < n
  }

  // The offset after every ord met so far; zero for the others.
  ghost predicate OrdOffsets(d: seq<nat>, n: nat, rowOffsets: seq<nat>) {
    && |rowOffsets| == n + 1 && rowOffsets[0] == 0
    && forall t :: 1 <= t <= n ==> OrdOffset(d, t, rowOffsets[t])
  }

  ghost predicate OrdOffset(d: seq<nat>, t: nat, e: nat)
    requires t > 0
  {
    if HasOrd(d, t - 1) then SplitsAt(d, Key(t, 0), e) else e == 0
  }

  lemma BucketsClimb(keys: multiset<nat>, more: seq<nat>, b: nat, n: nat)
    requires KeysBefore(keys, b, n) && KeysIn(more, b, n)
    ensures forall j, k :: j in keys && k in multiset(more) ==> KeyOrd(j) < KeyOrd(k) && j < k
    ensures KeysBefore(keys + multiset(more), b + 1, n)
  {
    hide BucketOf;
    forall j, k | j in keys && k in multiset(more) ensures KeyOrd(j) < KeyOrd(k) && j < k {
      BucketMonotone(KeyOrd(j), KeyOrd(k), n);
    }
  }

  // Entry t after the first j ends of a bucket are stored.
  ghost predicate Storing(d: seq<nat>, n: nat, was: seq<nat>, ends: seq<(nat, nat)>, j: nat, rowOffsets: seq<nat>)
    requires j <= |ends|
  {
    && |was| == n + 1 && |rowOffsets| == n + 1 && rowOffsets[0] == was[0]
    && forall t :: 1 <= t <= n ==>
         if HasEnd(ends[..j], t - 1) then SplitsAt(d, Key(t, 0), rowOffsets[t]) else rowOffsets[t] == was[t]
  }

  method StoreEnds(ghost d: seq<nat>, ghost e: seq<nat>, n: nat, ends: seq<(nat, nat)>, base: nat, was: seq<nat>)
    returns (rowOffsets: seq<nat>)
    requires |was| == n + 1 && base == |d| && EndsFor(e, ends)
    requires forall r, s :: 0 <= r < |d| && 0 <= s < |e| ==> KeyOrd(d[r]) < KeyOrd(e[s])
    requires forall s :: 0 <= s < |e| ==> KeyOrd(e[s]) < n
    ensures Storing(d + e, n, was, ends, |ends|, rowOffsets)
  {
    hide KeyOrd, Key, SplitsAt, HasEnd, HasOrd;
    rowOffsets := was;
    NoEnds();
    assert ends[..0] == [];
    for j := 0 to |ends|
      invariant Storing(d + e, n, was, ends, j, rowOffsets)
    {
      var (ord, end) := ends[j];
      EndShifted(d, e, ends, j, n);
      EndsSnoc(ends, j);
      rowOffsets := rowOffsets[ord + 1 := base + end];
    }
  }

  lemma NoEnds()
    ensures forall ord :: !HasEnd([], ord)
  {
  }

  lemma EndsSnoc(ends: seq<(nat, nat)>, j: nat)
    requires j < |ends|
    ensures forall ord :: HasEnd(ends[..j + 1], ord) <==> HasEnd(ends[..j], ord) || ord == ends[j].0
  {
    forall ord ensures HasEnd(ends[..j + 1], ord) <==> HasEnd(ends[..j], ord) || ord == ends[j].0 {
      assert ends[..j + 1][j] == ends[j];
      assert forall i :: 0 <= i < j ==> ends[..j + 1][i] == ends[..j][i];
    }
  }

  lemma EndShifted(d: seq<nat>, e: seq<nat>, ends: seq<(nat, nat)>, j: nat, n: nat)
    requires EndsFor(e, ends) && j < |ends|
    requires forall r, s :: 0 <= r < |d| && 0 <= s < |e| ==> KeyOrd(d[r]) < KeyOrd(e[s])
    requires forall s :: 0 <= s < |e| ==> KeyOrd(e[s]) < n
    ensures ends[j].0 < n && SplitsAt(d + e, Key(ends[j].0 + 1, 0), |d| + ends[j].1)
  {
    hide KeyOrd, Key, HasEnd;
    var ord, end := ends[j].0, ends[j].1;
    assert HasOrd(e, ord) && SplitsAt(e, Key(ord + 1, 0), end);
    var s :| 0 <= s < |e| && KeyOrd(e[s]) == ord;
    forall r | 0 <= r < |d| ensures d[r] < Key(ord + 1, 0) {
      KeyOrder(d[r], ord + 1);
    }
  }

  lemma OffsetsGrow(d: seq<nat>, e: seq<nat>, n: nat, ends: seq<(nat, nat)>, was: seq<nat>, rowOffsets: seq<nat>)
    requires OrdOffsets(d, n, was) && EndsFor(e, ends) && Storing(d + e, n, was, ends, |ends|, rowOffsets)
    requires forall r, s :: 0 <= r < |d| && 0 <= s < |e| ==> KeyOrd(d[r]) < KeyOrd(e[s])
    ensures OrdOffsets(d + e, n, rowOffsets)
  {
    hide KeyOrd, Key, SplitsAt, HasEnd, HasOrd;
    assert ends[..|ends|] == ends;
    forall t | 1 <= t <= n ensures OrdOffset(d + e, t, rowOffsets[t]) {
      assert OrdOffset(d, t, was[t]);
      EndsAreOrds(e, ends, t - 1);
      OrdsOfBoth(d, e, t - 1);
      if HasOrd(d, t - 1) && !HasOrd(e, t - 1) {
        OldOffset(d, e, t, was[t]);
      }
    }
  }

  lemma EndsAreOrds(e: seq<nat>, ends: seq<(nat, nat)>, ord: nat)
    requires EndsFor(e, ends)
    ensures HasEnd(ends, ord) <==> HasOrd(e, ord)
  {
    hide KeyOrd, Key, SplitsAt;
    if HasEnd(ends, ord) {
      var j :| 0 <= j < |ends| && ends[j].0 == ord;
    }
    if HasOrd(e, ord) {
      var r :| 0 <= r < |e| && KeyOrd(e[r]) == ord;
    }
  }

  lemma OrdsOfBoth(d: seq<nat>, e: seq<nat>, ord: nat)
    ensures HasOrd(d + e, ord) <==> HasOrd(d, ord) || HasOrd(e, ord)
  {
    hide KeyOrd;
    var all := d + e;
    if HasOrd(d, ord) {
      HasOrdKept(d, all, ord);
    }
    if HasOrd(e, ord) {
      var r :| 0 <= r < |e| && KeyOrd(e[r]) == ord;
      assert all[|d| + r] == e[r];
    }
    if HasOrd(all, ord) {
      var r :| 0 <= r < |all| && KeyOrd(all[r]) == ord;
      if r < |d| {
        assert d[r] == all[r];
      } else {
        assert e[r - |d|] == all[r];
      }
    }
  }

  lemma OldOffset(d: seq<nat>, e: seq<nat>, t: nat, end: nat)
    requires t > 0 && HasOrd(d, t - 1) && SplitsAt(d, Key(t, 0), end)
    requires forall r, s :: 0 <= r < |d| && 0 <= s < |e| ==> KeyOrd(d[r]) < KeyOrd(e[s])
    ensures SplitsAt(d + e, Key(t, 0), end)
  {
    hide KeyOrd, Key;
    var r :| 0 <= r < |d| && KeyOrd(d[r]) == t - 1;
    var all := d + e;
    forall s | |d| <= s < |all| ensures Key(t, 0) <= all[s] {
      assert all[s] == e[s - |d|];
      KeyOrder(all[s], t);
    }
    SplitKept(d, all, Key(t, 0), end);
  }

  // The rows of buckets 0..b, and the offsets of the ords met in them.
  ghost predicate Stitched(p: Postings, keys: multiset<nat>, d: seq<nat>, b: nat, n: nat) {
    && RowsFor(keys, d, p.docs, p.freqs) && p.total == |keys|
    && KeysBefore(keys, b, n) && OrdOffsets(d, n, p.rowOffsets)
  }

  method StitchOne(p: Postings, ghost keys: multiset<nat>, ghost d: seq<nat>, ghost bucket: seq<nat>, b: nat, n: nat,
                   o: BucketOut, ghost e: seq<nat>)
    returns (p': Postings)
    requires Stitched(p, keys, d, b, n) && KeysIn(bucket, b, n)
    requires RowsFor(multiset(bucket), e, o.docs, o.freqs) && o.total == |bucket| && EndsFor(e, o.ordEnds)
    ensures Stitched(p', keys + multiset(bucket), d + e, b + 1, n)
  {
    hide BucketOf, KeyOrd, KeyDoc, EndsFor, OrdOffsets, Storing, KeysBefore, KeysIn;
    BucketsClimb(keys, bucket, b, n);
    RowsClimb(p, keys, d, bucket, b, n, o, e);
    OffsetsLength(d, n, p.rowOffsets);
    var rowOffsets := StoreEnds(d, e, n, o.ordEnds, |p.docs|, p.rowOffsets);
    OffsetsGrow(d, e, n, o.ordEnds, p.rowOffsets, rowOffsets);
    RowsAppend(keys, d, p.docs, p.freqs, multiset(bucket), e, o.docs, o.freqs);
    p' := Postings(p.docs + o.docs, p.freqs + o.freqs, rowOffsets, p.total + o.total);
  }

  lemma OffsetsLength(d: seq<nat>, n: nat, rowOffsets: seq<nat>)
    requires OrdOffsets(d, n, rowOffsets)
    ensures |rowOffsets| == n + 1
  {
  }

  lemma RowsClimb(p: Postings, keys: multiset<nat>, d: seq<nat>, bucket: seq<nat>, b: nat, n: nat, o: BucketOut, e: seq<nat>)
    requires Stitched(p, keys, d, b, n) && KeysIn(bucket, b, n)
    requires RowsFor(multiset(bucket), e, o.docs, o.freqs)
    ensures forall r, s :: 0 <= r < |d| && 0 <= s < |e| ==> KeyOrd(d[r]) < KeyOrd(e[s])
    ensures forall s :: 0 <= s < |e| ==> KeyOrd(e[s]) < n
  {
    hide BucketOf, KeyOrd, KeyDoc;
    BucketsClimb(keys, bucket, b, n);
    forall r, s | 0 <= r < |d| && 0 <= s < |e| ensures KeyOrd(d[r]) < KeyOrd(e[s]) {
      assert d[r] in keys && e[s] in multiset(bucket);
    }
    forall s | 0 <= s < |e| ensures KeyOrd(e[s]) < n {
      assert e[s] in multiset(bucket);
    }
  }

  // Fill forward so that every ord has a span, even in the gaps.
  method FillForward(p: Postings, ghost keys: multiset<nat>, ghost d: seq<nat>, n: nat) returns (p': Postings)
    requires Stitched(p, keys, d, BUCKETS, n)
    ensures IsCsr(p', keys, n)
  {
    hide KeyOrd, Key, KeyDoc, BucketOf, RowsFor, SplitsAt, HasOrd, OrdOffset, IsCsr;
    var rowOffsets := p.rowOffsets;
    FirstSplit(d);
    for t := 1 to n + 1
      invariant |rowOffsets| == n + 1
      invariant forall s :: 0 <= s < t ==> SplitsAt(d, Key(s, 0), rowOffsets[s])
      invariant forall s :: t <= s <= n ==> OrdOffset(d, s, rowOffsets[s])
    {
      NextSplit(d, t, rowOffsets[t - 1], rowOffsets[t]);
      if rowOffsets[t] < rowOffsets[t - 1] {
        rowOffsets := rowOffsets[t := rowOffsets[t - 1]];
      }
    }
    p' := p.(rowOffsets := rowOffsets);
    CsrFromRows(p', keys, n, d);
  }

  lemma FirstSplit(d: seq<nat>)
    ensures SplitsAt(d, Key(0, 0), 0)
  {
  }

  lemma NextSplit(d: seq<nat>, t: nat, before: nat, e: nat)
    requires t > 0 && SplitsAt(d, Key(t - 1, 0), before) && OrdOffset(d, t, e)
    ensures SplitsAt(d, Key(t, 0), if e < before then before else e)
  {
    hide KeyOrd;
    if HasOrd(d, t - 1) {
      SplitsOrdered(d, Key(t - 1, 0), Key(t, 0), before, e);
    } else {
      forall r | 0 <= r < |d| ensures d[r] < Key(t - 1, 0) || Key(t, 0) <= d[r] {
        KeyOrder(d[r], t - 1);
        KeyOrder(d[r], t);
      }
    }
  }

  // ----- the whole pass ----------------------------------------------------------------------

  lemma {:induction false} InBucketMembers(keys: seq<nat>, b: nat, n: nat, k: nat)
    ensures multiset(InBucket(keys, b, n))[k] == if BucketOf(KeyOrd(k), n) == b then multiset(keys)[k] else 0
    decreases |keys|
  {
    hide BucketOf, KeyOrd;
    if keys != [] {
      var init, last := keys[..|keys| - 1], keys[|keys| - 1];
      assert keys == init + [last];
      InBucketMembers(init, b, n, k);
    }
  }

  // The keys of the buckets before b.
  ghost function Earlier(sorted: seq<seq<nat>>, b: nat): multiset<nat>
    requires b <= |sorted|
  {
    if b == 0 then multiset{} else Earlier(sorted, b - 1) + multiset(sorted[b - 1])
  }

  lemma {:induction false} EarlierCounts(sorted: seq<seq<nat>>, keys: seq<nat>, b: nat, n: nat, k: nat)
    requires |sorted| == BUCKETS && b <= BUCKETS
    requires forall c :: 0 <= c < BUCKETS ==> multiset(sorted[c]) == multiset(InBucket(keys, c, n))
    ensures Earlier(sorted, b)[k] == if BucketOf(KeyOrd(k), n) < b then multiset(keys)[k] else 0
    decreases b
  {
    hide BucketOf, KeyOrd, InBucket;
    if b > 0 {
      EarlierCounts(sorted, keys, b - 1, n, k);
      InBucketMembers(keys, b - 1, n, k);
    }
  }

  lemma AllEarlier(sorted: seq<seq<nat>>, keys: seq<nat>, n: nat)
    requires |sorted| == BUCKETS
    requires forall c :: 0 <= c < BUCKETS ==> multiset(sorted[c]) == multiset(InBucket(keys, c, n))
    ensures Earlier(sorted, BUCKETS) == multiset(keys)
  {
    hide KeyOrd, InBucket, Earlier;
    forall k ensures Earlier(sorted, BUCKETS)[k] == multiset(keys)[k] {
      if k >= 0 {
        EarlierCounts(sorted, keys, BUCKETS, n, k);
      }
    }
  }

  lemma BucketKeys(sorted: seq<seq<nat>>, keys: seq<nat>, n: nat, b: nat)
    requires |sorted| == BUCKETS && b < BUCKETS && multiset(sorted[b]) == multiset(InBucket(keys, b, n))
    requires forall k :: k in keys ==> KeyOrd(k) < n
    ensures KeysIn(sorted[b], b, n)
  {
    hide BucketOf, KeyOrd, InBucket;
    forall k | k in multiset(sorted[b]) ensures BucketOf(KeyOrd(k), n) == b && KeyOrd(k) < n {
      InBucketMembers(keys, b, n, k);
      assert multiset(keys)[k] > 0;
    }
  }

  // Any number of unsorted chunks of keys below n ords.
  method KeysToCsr(chunks: seq<seq<nat>>, n: nat, threads: nat) returns (p: Postings)
    requires threads > 0 && forall k :: k in Flatten(chunks) ==> KeyOrd(k) < n
    ensures IsCsr(p, multiset(Flatten(chunks)), n)
  {
    hide KeyOrd, BucketOf, InBucket, Stitched, IsCsr, Flatten, RowsFor, EndsFor, Earlier, KeysIn, Sorted;
    var buckets := GatherBuckets(chunks, n);
    var sorted := SortBuckets(buckets, threads);
    var outs: seq<BucketOut> := [];
    ghost var ds: seq<seq<nat>> := [];
    for b := 0 to BUCKETS
      invariant |outs| == b && |ds| == b
      invariant forall c :: 0 <= c < b ==> IsBucketOut(sorted[c], ds[c], outs[c])
    {
      var o, e := RunLengths(sorted[b]);
      outs, ds := outs + [o], ds + [e];
    }
    p := Postings([], [], seq(n + 1, t => 0), 0);
    ghost var d: seq<nat> := [];
    NothingStitched(sorted, n);
    for b := 0 to BUCKETS
      invariant Stitched(p, Earlier(sorted, b), d, b, n)
    {
      BucketKeys(sorted, Flatten(chunks), n, b);
      assert IsBucketOut(sorted[b], ds[b], outs[b]);
      p := StitchOne(p, Earlier(sorted, b), d, sorted[b], b, n, outs[b], ds[b]);
      EarlierStep(sorted, b);
      d := d + ds[b];
    }
    AllEarlier(sorted, Flatten(chunks), n);
    p := FillForward(p, multiset(Flatten(chunks)), d, n);
  }

  ghost predicate IsBucketOut(bucket: seq<nat>, e: seq<nat>, o: BucketOut) {
    RowsFor(multiset(bucket), e, o.docs, o.freqs) && o.total == |bucket| && EndsFor(e, o.ordEnds)
  }

  lemma EarlierStep(sorted: seq<seq<nat>>, b: nat)
    requires b < |sorted|
    ensures Earlier(sorted, b + 1) == Earlier(sorted, b) + multiset(sorted[b])
  {
  }

  lemma NothingStitched(sorted: seq<seq<nat>>, n: nat)
    ensures Stitched(Postings([], [], seq(n + 1, t => 0), 0), Earlier(sorted, 0), [], 0, n)
  {
    forall t | 1 <= t <= n ensures OrdOffset([], t, 0) {
      assert !HasOrd([], t - 1);
    }
  }
}
