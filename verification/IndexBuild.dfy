// The two host index builders: one document at a time, and in parallel chunks
// with local vocabularies. Both give the inverted field of the tokens, so they
// give the same one.
module IndexBuild {
  import opened Bits
  import opened Wire
  import opened Lex
  import opened StatsPass
  import opened Analyzer
  import opened Csr
  import opened Inverted

  // ----- postings of one term ------------------------------------------------------

  // The documents that hold t, with its count in each.
  function PostingsOf(docs: seq<seq<Term>>, t: Term): seq<(nat, nat)> {
    if docs == [] then []
    else
      var n := |docs| - 1;
      PostingsOf(docs[..n], t) + if t in docs[n] then [(n, multiset(docs[n])[t])] else []
  }

  lemma {:induction false} PostingsAre(docs: seq<seq<Term>>, t: Term)
    ensures forall i :: 0 <= i < |PostingsOf(docs, t)| ==>
              && PostingsOf(docs, t)[i].0 < |docs| && t in docs[PostingsOf(docs, t)[i].0]
              && PostingsOf(docs, t)[i].1 == multiset(docs[PostingsOf(docs, t)[i].0])[t]
    ensures forall i, j :: 0 <= i < j < |PostingsOf(docs, t)| ==> PostingsOf(docs, t)[i].0 < PostingsOf(docs, t)[j].0
  {
    if docs != [] {
      var n := |docs| - 1;
      PostingsAre(docs[..n], t);
    }
  }

  lemma {:induction false} PostingsHave(docs: seq<seq<Term>>, t: Term, d: nat) returns (i: nat)
    requires d < |docs| && t in docs[d]
    ensures i < |PostingsOf(docs, t)| && PostingsOf(docs, t)[i].0 == d
  {
    var n := |docs| - 1;
    if d == n {
      i := |PostingsOf(docs[..n], t)|;
    } else {
      i := PostingsHave(docs[..n], t, d);
    }
  }

  lemma PostingsSnoc(docs: seq<seq<Term>>, tokens: seq<Term>, t: Term)
    ensures PostingsOf(docs + [tokens], t) ==
            PostingsOf(docs, t) + if t in tokens then [(|docs|, multiset(tokens)[t])] else []
  {
    assert (docs + [tokens])[..|docs|] == docs;
  }

  lemma {:induction false} PostingsNone(docs: seq<seq<Term>>, t: Term)
    requires t !in Flatten(docs)
    ensures PostingsOf(docs, t) == []
  {
    if docs != [] {
      var n := |docs| - 1;
      FlattenSnoc(docs, n);
      assert docs[..n + 1] == docs;
      PostingsNone(docs[..n], t);
    }
  }

  lemma FlattenGrows(docs: seq<seq<Term>>, tokens: seq<Term>)
    ensures Flatten(docs + [tokens]) == Flatten(docs) + tokens
  {
    var all := docs + [tokens];
    FlattenSnoc(all, |docs|);
    assert all[..|docs|] == docs && all[..|docs| + 1] == all;
  }

  // ----- the serial builder ------------------------------------------------------------

  // Occurrences of each token.
  method CountTokens(tokens: seq<Term>) returns (counts: map<Term, nat>)
    ensures counts.Keys == set t | t in tokens
    ensures forall t :: t in tokens ==> counts[t] == multiset(tokens)[t]
  {
    counts := map[];
    for i := 0 to |tokens|
      invariant counts.Keys == set t | t in tokens[..i]
      invariant forall t :: t in tokens[..i] ==> counts[t] == multiset(tokens[..i])[t]
    {
      assert tokens[..i + 1] == tokens[..i] + [tokens[i]];
      var t := tokens[i];
      counts := counts[t := (if t in counts then counts[t] else 0) + 1];
    }
    assert tokens[..|tokens|] == tokens;
  }

  ghost predicate DistinctIds(ids: map<Term, nat>, n: nat) {
    && (forall t :: t in ids ==> ids[t] < n)
    && (forall s, t :: s in ids && t in ids && s != t ==> ids[s] != ids[t])
  }

  // Postings by term id, when the new document's terms in `done` are entered.
  ghost predicate Entered(ids: map<Term, nat>, postings: seq<seq<(nat, nat)>>, docs: seq<seq<Term>>, tokens: seq<Term>,
                          done: set<Term>) {
    && DistinctIds(ids, |postings|)
    && (forall t :: t in ids <==> t in Flatten(docs) || t in done)
    && forall t :: t in ids ==>
         postings[ids[t]] == PostingsOf(if t in done then docs + [tokens] else docs, t)
  }

  lemma EnterTerm(ids: map<Term, nat>, postings: seq<seq<(nat, nat)>>, docs: seq<seq<Term>>, tokens: seq<Term>,
                  done: set<Term>, t: Term, f: nat)
    requires Entered(ids, postings, docs, tokens, done) && t in tokens && t !in done && f == multiset(tokens)[t]
    ensures t in ids ==> Entered(ids, postings[ids[t] := postings[ids[t]] + [(|docs|, f)]], docs, tokens, done + {t})
    ensures t !in ids ==> Entered(ids[t := |postings|], postings + [[(|docs|, f)]], docs, tokens, done + {t})
  {
    hide PostingsOf, Flatten;
    PostingsSnoc(docs, tokens, t);
    if t !in ids {
      PostingsNone(docs, t);
      assert [] + [(|docs|, f)] == [(|docs|, f)];
    }
  }

  lemma EnteredAll(ids: map<Term, nat>, postings: seq<seq<(nat, nat)>>, docs: seq<seq<Term>>, tokens: seq<Term>,
                   done: set<Term>)
    requires Entered(ids, postings, docs, tokens, done) && done == set t | t in tokens
    ensures Entered(ids, postings, docs + [tokens], [], {})
  {
    hide PostingsOf, Flatten;
    FlattenGrows(docs, tokens);
    forall t | t in ids ensures postings[ids[t]] == PostingsOf(docs + [tokens], t) {
      if t !in done {
        PostingsSnoc(docs, tokens, t);
        assert PostingsOf(docs, t) + [] == PostingsOf(docs, t);
      }
    }
  }

  class IndexBuilder {
    var termIds: map<Term, nat>
    var postings: seq<seq<(nat, nat)>>
    var norms: seq<byte>
    var nextDoc: nat
    ghost var docs: seq<seq<Term>> // the tokens of the documents added

    ghost predicate Valid()
      reads this
    {
      nextDoc == |docs| && norms == Norms(docs) && Entered(termIds, postings, docs, [], {})
    }

    constructor ()
      ensures Valid() && docs == []
    {
      termIds, postings, norms, nextDoc, docs := map[], [], [], 0, [];
    }

    method AddDoc(text: seq<Scalar>, u: Unicode) returns (doc: nat)
      requires Valid()
      modifies this
      ensures Valid() && doc == old(nextDoc) && docs == old(docs) + [Tokens(text, u)]
    {
      doc := nextDoc;
      nextDoc := nextDoc + 1;
      var tokens := Tokenize(text, u);
      norms := norms + [NormOf(|tokens|)];
      var counts := CountTokens(tokens);
      NormsGrow(docs, tokens);
      AddCounts(doc, tokens, counts);
      docs := docs + [tokens];
    }

    // The counts come in any order.
    method AddCounts(doc: nat, ghost tokens: seq<Term>, counts: map<Term, nat>)
      requires doc == |docs| && Entered(termIds, postings, docs, [], {})
      requires counts.Keys == (set t | t in tokens) && forall t :: t in tokens ==> counts[t] == multiset(tokens)[t]
      modifies this`termIds, this`postings
      ensures Entered(termIds, postings, docs + [tokens], [], {})
    {
      hide Entered;
      var left := counts.Keys;
      NoneEntered(termIds, postings, docs, tokens);
      while left != {}
        invariant left <= counts.Keys && Entered(termIds, postings, docs, tokens, counts.Keys - left)
        decreases left
      {
        var term :| term in left;
        var freq := counts[term];
        EnterTerm(termIds, postings, docs, tokens, counts.Keys - left, term, freq);
        EnteredIds(termIds, postings, docs, tokens, counts.Keys - left);
        assert counts.Keys - (left - {term}) == counts.Keys - left + {term};
        left := left - {term};
        if term !in termIds {
          termIds := termIds[term := |postings|];
          postings := postings + [[(doc, freq)]];
        } else {
          var id := termIds[term];
          postings := postings[id := postings[id] + [(doc, freq)]];
        }
      }
      assert counts.Keys - left == set t | t in tokens;
      EnteredAll(termIds, postings, docs, tokens, counts.Keys - left);
    }

    // Terms in order, each with its postings.
    method Finish() returns (f: InvertedField)
      requires Valid() && |docs| <= TWO_32
      ensures IsInverted(f, docs)
    {
      hide DictOf, PostingsOf, Flatten, IsCsr, PushAll, Entered, RowsSoFar, TokenPairs, KeysOf;
      var terms := ListKeys(termIds);
      DictOfIds(termIds, postings, docs, terms);
      var dict := SortUnique(terms);
      ghost var keys := multiset(KeysOf(TokenPairs(docs, 0), DictOf(docs)));
      var names := NO_TERMS;
      var p := Postings([], [], [0], 0);
      ghost var d: seq<nat> := [];
      NoRowsYet(docs, keys);
      assert dict[..0] == [];
      PushNone();
      for ord := 0 to |dict|
        invariant names == PushAll(U64, NO_TERMS, dict[..ord])
        invariant RowsSoFar(p, keys, d, ord)
      {
        PushNext(dict, ord);
        names := Dictionary(names.bytes + dict[ord], names.offsets + [|names.bytes| + |dict[ord]|]);
        TermRow(termIds, postings, docs, dict[ord]);
        var row := postings[termIds[dict[ord]]];
        p, d := AddRow(p, d, row, docs, ord);
      }
      assert dict[..|dict|] == dict;
      AllRows(p, docs, d);
      f := InvertedField(names, p, norms);
    }
  }

  lemma NormsGrow(docs: seq<seq<Term>>, tokens: seq<Term>)
    ensures Norms(docs + [tokens]) == Norms(docs) + [NormOf(|tokens|)]
  {
  }

  lemma NoneEntered(ids: map<Term, nat>, postings: seq<seq<(nat, nat)>>, docs: seq<seq<Term>>, tokens: seq<Term>)
    requires Entered(ids, postings, docs, [], {})
    ensures forall s: set<Term> :: s == {} ==> Entered(ids, postings, docs, tokens, s)
  {
  }

  lemma EnteredIds(ids: map<Term, nat>, postings: seq<seq<(nat, nat)>>, docs: seq<seq<Term>>, tokens: seq<Term>, done: set<Term>)
    requires Entered(ids, postings, docs, tokens, done)
    ensures forall t :: t in ids ==> ids[t] < |postings|
  {
  }

  // The keys of a map, in any order.
  method ListKeys<V>(m: map<Term, V>) returns (terms: seq<Term>)
    ensures forall t :: t in terms <==> t in m
  {
    terms := [];
    var left := m.Keys;
    while left != {}
      invariant left <= m.Keys && forall t :: t in terms <==> t in m.Keys && t !in left
      decreases left
    {
      var t :| t in left;
      terms := terms + [t];
      left := left - {t};
    }
  }

  lemma SameDict(a: seq<Term>, b: seq<Term>)
    requires forall t :: t in a <==> t in b
    ensures SortUnique(a) == SortUnique(b)
  {
    hide Less, SortUnique, StrictlySorted;
    SortUniqueIs(a);
    SortUniqueIs(b);
    SameMembers(SortUnique(a), SortUnique(b));
  }

  lemma DictOfIds(ids: map<Term, nat>, postings: seq<seq<(nat, nat)>>, docs: seq<seq<Term>>, terms: seq<Term>)
    requires Entered(ids, postings, docs, [], {}) && forall t :: t in terms <==> t in ids
    ensures SortUnique(terms) == DictOf(docs)
  {
    hide SortUnique, Flatten, PostingsOf;
    SameDict(terms, Flatten(docs));
  }

  lemma TermRow(ids: map<Term, nat>, postings: seq<seq<(nat, nat)>>, docs: seq<seq<Term>>, t: Term)
    requires Entered(ids, postings, docs, [], {}) && t in DictOf(docs)
    ensures t in ids && ids[t] < |postings| && postings[ids[t]] == PostingsOf(docs, t)
  {
    hide DictOf, Flatten, PostingsOf;
    DictIs(docs);
  }

  lemma PushNone()
    ensures PushAll(U64, NO_TERMS, []) == NO_TERMS
  {
  }

  lemma PushNext(dict: seq<Term>, ord: nat)
    requires ord < |dict|
    ensures PushAll(U64, NO_TERMS, dict[..ord + 1]) == Push(U64, PushAll(U64, NO_TERMS, dict[..ord]), dict[ord])
  {
    PushAllAppend(U64, NO_TERMS, dict[..ord], [dict[ord]]);
    PushOne(U64, PushAll(U64, NO_TERMS, dict[..ord]), dict[ord]);
    assert dict[..ord + 1] == dict[..ord] + [dict[ord]];
  }

  // ----- rows, ord by ord ------------------------------------------------------------------

  function Sum(s: seq<nat>): nat {
    if s == [] then 0 else Sum(s[..|s| - 1]) + s[|s| - 1]
  }

  // The rows of the ords before `ord`; d lists their keys.
  ghost predicate RowsSoFar(p: Postings, keys: multiset<nat>, d: seq<nat>, ord: nat) {
    && |p.docs| == |d| && |p.freqs| == |d| && Ascending(d)
    && (forall r :: 0 <= r < |d| ==>
          p.docs[r] == KeyDoc(d[r]) && p.freqs[r] == keys[d[r]] && d[r] in keys && KeyOrd(d[r]) < ord)
    && (forall k :: k in keys && KeyOrd(k) < ord ==> k in d)
    && |p.rowOffsets| == ord + 1
    && (forall t :: 0 <= t <= ord ==> SplitsAt(d, Key(t, 0), p.rowOffsets[t]))
    && p.total == Sum(p.freqs)
  }

  lemma NoRowsYet(docs: seq<seq<Term>>, keys: multiset<nat>)
    ensures RowsSoFar(Postings([], [], [0], 0), keys, [], 0)
  {
  }

  // The keys of one row.
  ghost predicate RowKeys(row: seq<(nat, nat)>, keys: multiset<nat>, ord: nat) {
    && (forall i :: 0 <= i < |row| ==> row[i].0 < TWO_32 && row[i].1 == keys[Key(ord, row[i].0)] > 0)
    && (forall i, j :: 0 <= i < j < |row| ==> row[i].0 < row[j].0)
    && (forall k :: k in keys && KeyOrd(k) == ord ==> HasDoc(row, KeyDoc(k)))
  }

  ghost predicate HasDoc(row: seq<(nat, nat)>, doc: nat) {
    exists i :: 0 <= i < |row| && row[i].0 == doc
  }

  lemma RowOfTerm(docs: seq<seq<Term>>, ord: nat)
    requires |docs| <= TWO_32 && ord < |DictOf(docs)|
    ensures RowKeys(PostingsOf(docs, DictOf(docs)[ord]), multiset(KeysOf(TokenPairs(docs, 0), DictOf(docs))), ord)
  {
    hide Key, KeyOrd, KeyDoc, DictOf, KeysOf, TokenPairs, PostingsOf, Flatten, AllIn, StrictlySorted;
    var dict, pairs := DictOf(docs), TokenPairs(docs, 0);
    var keys, row := multiset(KeysOf(pairs, dict)), PostingsOf(docs, dict[ord]);
    PostingsAre(docs, dict[ord]);
    forall d: nat | d < TWO_32
      ensures keys[Key(ord, d)] == if d < |docs| then multiset(docs[d])[dict[ord]] else 0
    {
      KeyCountIs(docs, ord, d);
    }
    forall k | k in keys && KeyOrd(k) == ord ensures HasDoc(row, KeyDoc(k)) {
      KeyWhole(k);
      var i := PostingsHave(docs, dict[ord], KeyDoc(k));
    }
  }

  lemma KeyCountIs(docs: seq<seq<Term>>, ord: nat, d: nat)
    requires |docs| <= TWO_32 && ord < |DictOf(docs)| && d < TWO_32
    ensures multiset(KeysOf(TokenPairs(docs, 0), DictOf(docs)))[Key(ord, d)] ==
            if d < |docs| then multiset(docs[d])[DictOf(docs)[ord]] else 0
  {
    hide Key, DictOf, KeysOf, TokenPairs, AllIn, StrictlySorted;
    DictIs(docs);
    PairsIn(docs);
    KeyCounts(TokenPairs(docs, 0), DictOf(docs), ord, d);
    PairCounts(docs, 0, DictOf(docs)[ord], d);
  }

  // Appends one term's postings; d collects the keys.
  method AddRow(p: Postings, ghost d: seq<nat>, row: seq<(nat, nat)>, ghost docs: seq<seq<Term>>, ghost ord: nat)
    returns (p': Postings, ghost d': seq<nat>)
    requires |docs| <= TWO_32 && ord < |DictOf(docs)| && row == PostingsOf(docs, DictOf(docs)[ord])
    requires RowsSoFar(p, multiset(KeysOf(TokenPairs(docs, 0), DictOf(docs))), d, ord)
    ensures RowsSoFar(p', multiset(KeysOf(TokenPairs(docs, 0), DictOf(docs))), d', ord + 1)
  {
    hide Key, KeyOrd, KeyDoc, DictOf, KeysOf, TokenPairs, PostingsOf, RowKeys, RowsSoFar, RowPart;
    ghost var keys := multiset(KeysOf(TokenPairs(docs, 0), DictOf(docs)));
    RowOfTerm(docs, ord);
    d' := d;
    p' := p;
    RowStarts(p, keys, d, row, ord);
    for i := 0 to |row|
      invariant RowPart(p, p', keys, d, d', row, ord, i)
    {
      RowPush(p, p', keys, d, d', row, ord, i);
      var (doc, freq) := row[i];
      p' := p'.(docs := p'.docs + [doc], freqs := p'.freqs + [freq], total := p'.total + freq);
      d' := d' + [Key(ord, doc)];
    }
    RowEnds(p, p', keys, d, d', row, ord);
    p' := p'.(rowOffsets := p'.rowOffsets + [|p'.docs|]);
  }

  // The first i entries of a row are appended.
  ghost predicate RowPart(p: Postings, p': Postings, keys: multiset<nat>, d: seq<nat>, d': seq<nat>, row: seq<(nat, nat)>,
                          ord: nat, i: nat) {
    && i <= |row| && |d'| == |d| + i && d <= d' && |p'.docs| == |d'| && |p'.freqs| == |d'|
    && p.docs <= p'.docs && p.freqs <= p'.freqs
    && (forall j :: 0 <= j < i ==>
          d'[|d| + j] == Key(ord, row[j].0) && p'.docs[|d| + j] == row[j].0 && p'.freqs[|d| + j] == row[j].1)
    && p'.rowOffsets == p.rowOffsets && p'.total == Sum(p'.freqs)
  }

  lemma RowStarts(p: Postings, keys: multiset<nat>, d: seq<nat>, row: seq<(nat, nat)>, ord: nat)
    requires RowsSoFar(p, keys, d, ord)
    ensures RowPart(p, p, keys, d, d, row, ord, 0)
  {
    hide Key, KeyOrd, KeyDoc, Sum;
  }

  lemma RowPush(p: Postings, p': Postings, keys: multiset<nat>, d: seq<nat>, d': seq<nat>, row: seq<(nat, nat)>,
                ord: nat, i: nat)
    requires RowPart(p, p', keys, d, d', row, ord, i) && i < |row|
    ensures RowPart(p, p'.(docs := p'.docs + [row[i].0], freqs := p'.freqs + [row[i].1], total := p'.total + row[i].1),
                    keys, d, d' + [Key(ord, row[i].0)], row, ord, i + 1)
  {
    hide Key;
    assert (p'.freqs + [row[i].1])[..|p'.freqs|] == p'.freqs;
  }

  lemma RowEnds(p: Postings, p': Postings, keys: multiset<nat>, d: seq<nat>, d': seq<nat>, row: seq<(nat, nat)>, ord: nat)
    requires RowsSoFar(p, keys, d, ord) && RowKeys(row, keys, ord)
    requires RowPart(p, p', keys, d, d', row, ord, |row|)
    ensures RowsSoFar(p'.(rowOffsets := p'.rowOffsets + [|p'.docs|]), keys, d', ord + 1)
  {
    hide Key, KeyOrd, KeyDoc, Sum, HasDoc, RowKeys, SplitsAt;
    forall r | 0 <= r < |d'|
      ensures p'.docs[r] == KeyDoc(d'[r]) && p'.freqs[r] == keys[d'[r]] && d'[r] in keys && KeyOrd(d'[r]) < ord + 1
      ensures r < |d| ==> KeyOrd(d'[r]) < ord
      ensures r >= |d| ==> KeyOrd(d'[r]) == ord
    {
      if r < |d| {
        assert d'[r] == d[r] && p'.docs[r] == p.docs[r] && p'.freqs[r] == p.freqs[r];
      } else {
        RowEntry(row, keys, ord, r - |d|);
      }
    }
    EndsAscend(d, d', row, keys, ord);
    forall k | k in keys && KeyOrd(k) < ord + 1 ensures k in d' {
      if KeyOrd(k) == ord {
        RowHasKey(d, d', row, keys, ord, k);
      }
    }
    EndsSplit(p, d, d', ord);
  }

  lemma RowEntry(row: seq<(nat, nat)>, keys: multiset<nat>, ord: nat, j: nat)
    requires RowKeys(row, keys, ord) && j < |row|
    ensures var k := Key(ord, row[j].0); KeyOrd(k) == ord && KeyDoc(k) == row[j].0 && row[j].1 == keys[k] && k in keys
  {
    hide Key, KeyOrd, KeyDoc, HasDoc;
    KeyParts(ord, row[j].0);
  }

  lemma RowHasKey(d: seq<nat>, d': seq<nat>, row: seq<(nat, nat)>, keys: multiset<nat>, ord: nat, k: nat)
    requires RowKeys(row, keys, ord) && k in keys && KeyOrd(k) == ord
    requires |d'| == |d| + |row| && forall j :: 0 <= j < |row| ==> d'[|d| + j] == Key(ord, row[j].0)
    ensures k in d'
  {
    hide Key, KeyOrd, KeyDoc;
    assert HasDoc(row, KeyDoc(k));
    var j :| 0 <= j < |row| && row[j].0 == KeyDoc(k);
    KeyWhole(k);
    assert d'[|d| + j] == k;
  }

  lemma EndsAscend(d: seq<nat>, d': seq<nat>, row: seq<(nat, nat)>, keys: multiset<nat>, ord: nat)
    requires Ascending(d) && d <= d' && |d'| == |d| + |row| && RowKeys(row, keys, ord)
    requires forall j :: 0 <= j < |row| ==> d'[|d| + j] == Key(ord, row[j].0)
    requires forall r :: 0 <= r < |d'| ==> (r < |d| ==> KeyOrd(d'[r]) < ord) && (r >= |d| ==> KeyOrd(d'[r]) == ord)
    ensures Ascending(d')
  {
    hide KeyOrd, KeyDoc, HasDoc;
    forall r, s | 0 <= r < s < |d'| ensures d'[r] < d'[s] {
      if s < |d| {
        assert d'[r] == d[r] && d'[s] == d[s];
      } else if r < |d| {
        KeyOrder(d'[r], ord);
        KeyOrder(d'[s], ord);
      } else {
        var i, j := r - |d|, s - |d|;
        assert d'[|d| + i] == Key(ord, row[i].0) && d'[|d| + j] == Key(ord, row[j].0);
      }
    }
  }

  lemma EndsSplit(p: Postings, d: seq<nat>, d': seq<nat>, ord: nat)
    requires |p.rowOffsets| == ord + 1 && d <= d'
    requires forall t :: 0 <= t <= ord ==> SplitsAt(d, Key(t, 0), p.rowOffsets[t])
    requires forall r :: 0 <= r < |d'| ==> KeyOrd(d'[r]) < ord + 1 && (r >= |d| ==> KeyOrd(d'[r]) == ord)
    ensures forall t :: 0 <= t <= ord + 1 ==> SplitsAt(d', Key(t, 0), (p.rowOffsets + [|d'|])[t])
  {
    hide KeyOrd, Key;
    forall t | 0 <= t <= ord + 1 ensures SplitsAt(d', Key(t, 0), (p.rowOffsets + [|d'|])[t]) {
      if t <= ord {
        assert SplitsAt(d, Key(t, 0), p.rowOffsets[t]);
        forall r | |d| <= r < |d'| ensures Key(t, 0) <= d'[r] {
          KeyOrder(d'[r], t);
        }
        SplitKept(d, d', Key(t, 0), p.rowOffsets[t]);
      } else {
        forall r | 0 <= r < |d'| ensures d'[r] < Key(t, 0) {
          KeyOrder(d'[r], t);
        }
      }
    }
  }

  lemma NoKeys(keys: multiset<nat>)
    requires forall k :: k in keys ==> k in []
    ensures |keys| == 0
  {
    assert keys == multiset{} by {
      forall k ensures k !in keys {
      }
    }
  }

  lemma WithoutLast(keys: multiset<nat>, d: seq<nat>, docs: seq<nat>, freqs: seq<nat>)
    requires RowsFor(keys, d, docs, freqs) && d != []
    ensures var n := |d| - 1;
            && RowsFor(keys[d[n] := 0], d[..n], docs[..n], freqs[..n]) && freqs[n] == keys[d[n]]
  {
    hide KeyDoc;
    var n := |d| - 1;
    var rest := keys[d[n] := 0];
    forall k | k in rest ensures k in d[..n] {
      assert k in d && k != d[n];
      assert d == d[..n] + [d[n]];
    }
  }

  // The frequencies add up to the number of keys.
  lemma {:induction false} RowsTotal(keys: multiset<nat>, d: seq<nat>, docs: seq<nat>, freqs: seq<nat>)
    requires RowsFor(keys, d, docs, freqs)
    ensures Sum(freqs) == |keys|
    decreases |d|
  {
    hide KeyDoc;
    if d == [] {
      NoKeys(keys);
    } else {
      var n := |d| - 1;
      WithoutLast(keys, d, docs, freqs);
      RowsTotal(keys[d[n] := 0], d[..n], docs[..n], freqs[..n]);
    }
  }

  lemma AllRows(p: Postings, docs: seq<seq<Term>>, d: seq<nat>)
    requires |docs| <= TWO_32
    requires RowsSoFar(p, multiset(KeysOf(TokenPairs(docs, 0), DictOf(docs))), d, |DictOf(docs)|)
    ensures IsCsr(p, multiset(KeysOf(TokenPairs(docs, 0), DictOf(docs))), |DictOf(docs)|)
  {
    hide KeyOrd, KeyDoc, Key, DictOf, KeysOf, TokenPairs, IsCsr, SplitsAt, AllIn;
    var keys := multiset(KeysOf(TokenPairs(docs, 0), DictOf(docs)));
    PairsIn(docs);
    forall k | k in keys ensures KeyOrd(k) < |DictOf(docs)| {
      KeysBounded(TokenPairs(docs, 0), DictOf(docs), k);
    }
    RowsTotal(keys, d, p.docs, p.freqs);
    CsrFromRows(p, keys, |DictOf(docs)|, d);
  }
}
