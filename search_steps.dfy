/** The loops of `search`, each proved to compute the function of module
    Search that specifies it, and the final sort and truncation, specified
    by the ranking they produce. */
module SearchSteps {
  import opened Entries
  import opened PostingList
  import opened Kernels
  import opened Filling
  import opened Stats
  import opened Search

  /** One valid token: lower_bound finds the word's place in the
      histogram, a node with value 0 is inserted there when the word is not
      yet counted, and the node's value goes up by one. */
  method TallyIn(wc: seq<Node>, id: nat) returns (r: seq<Node>)
    requires SortedBy(wc, IdOf)
    ensures r == Tally(wc, id)
  {
    var j := LowerBound(wc, IdOf, id);
    r := wc;
    if j == |wc| || id < wc[j].id {
      r := wc[..j] + [Node(0.0, id)] + wc[j..];
    }
    r := r[j := r[j].(val := r[j].val + 1.0)];
    TallyIsInsert(wc, id);
  }

  lemma HistogramPrefixStep(wlabel: seq<nat>, nwords: nat, i: nat)
    requires i < |wlabel|
    ensures Histogram(wlabel[..i + 1], nwords) ==
      if ValidLabel(wlabel[i], nwords) then Tally(Histogram(wlabel[..i], nwords), wlabel[i] - 1)
      else Histogram(wlabel[..i], nwords)
  {
    HistogramStep(wlabel[..i + 1], nwords);
    assert wlabel[..i + 1][..i] == wlabel[..i];
  }

  /** The counting loop over the query's tokens. */
  method CountWords(wlabel: seq<nat>, nwords: nat) returns (wc: seq<Node>)
    ensures wc == Histogram(wlabel, nwords)
  {
    wc := [];
    for i := 0 to |wlabel|
      invariant wc == Histogram(wlabel[..i], nwords)
    {
      HistogramPrefixStep(wlabel, nwords, i);
      var t := wlabel[i];
      if 0 < t <= nwords {
        HistogramShape(wlabel[..i], nwords);
        wc := TallyIn(wc, t - 1);
      }
    }
    assert wlabel[..|wlabel|] == wlabel;
  }

  lemma WeighQuerySnoc(wc: seq<Node>, i: nat, words: seq<Word>, wt: Weight, ndocs: nat, ntokens: nat, ops: FloatOps)
    requires i < |wc| && IdsBelow(wc, |words|)
    ensures IdsBelow(wc[..i], |words|) && IdsBelow(wc[..i + 1], |words|)
    ensures WeighQuery(wc[..i + 1], words, wt, ndocs, ntokens, ops)
      == WeighQuery(wc[..i], words, wt, ndocs, ntokens, ops)
         + [wc[i].(val := WeightVal(wc[i].val, words[wc[i].id], QueryTokens(ntokens), wt, ndocs, ops))]
  {
  }

  lemma QuerySumsSnoc(hw: seq<Node>, x: Node)
    ensures SumVals(hw + [x]) == SumVals(hw) + x.val
    ensures SumSqVals(hw + [x]) == SumSqVals(hw) + x.val * x.val
  {
    assert (hw + [x])[..|hw|] == hw;
  }

  /** One more weighted node adds one word, its value and its square to the
      query document's norms. */
  lemma QueryDocSnoc(hw: seq<Node>, n: Node, v: real, ntokens: nat)
    ensures var q := QueryDoc(hw, ntokens);
      QueryDoc(hw + [n.(val := v)], ntokens)
      == q.(norml0 := q.norml0 + 1.0, norml1 := q.norml1 + v, norml2 := q.norml2 + v * v, nwords := |hw| + 1)
  {
    QuerySumsSnoc(hw, n.(val := v));
  }

  /** The weighting loop: each count is weighted against the query document
      built so far, and the query's norms are accumulated. */
  method WeighCounts(wc: seq<Node>, words: seq<Word>, wt: Weight, ndocs: nat, ntokens: nat, ops: FloatOps)
    returns (hw: seq<Node>, q: Doc)
    requires IdsBelow(wc, |words|)
    ensures hw == WeighQuery(wc, words, wt, ndocs, ntokens, ops)
    ensures q == QueryDoc(hw, ntokens)
  {
    hw := [];
    q := NewDoc.(ntokens := ntokens, nwords := |wc|);
    assert wc[..0] == [];
    for i := 0 to |wc|
      invariant IdsBelow(wc[..i], |words|)
      invariant hw == WeighQuery(wc[..i], words, wt, ndocs, ntokens, ops)
      invariant q == QueryDoc(hw, ntokens).(nwords := |wc|)
    {
      var v := WeightVal(wc[i].val, words[wc[i].id], q, wt, ndocs, ops);
      WeightValReadsTokensOnly(wc[i].val, words[wc[i].id], q, QueryTokens(ntokens), wt, ndocs, ops);
      WeighQuerySnoc(wc, i, words, wt, ndocs, ntokens, ops);
      QueryDocSnoc(hw, wc[i], v, ntokens);
      hw := hw + [wc[i].(val := v)];
      q := q.(norml0 := q.norml0 + 1.0, norml1 := q.norml1 + v, norml2 := q.norml2 + v * v);
    }
    assert wc[..|wc|] == wc;
  }

  /** Without overlapOnly and without a norm, each seeded score becomes half
      of itself plus the query's self-term. */
  method HalveScores(sl: seq<Node>, docNorm: real) returns (r: seq<Node>)
    ensures r == Halve(sl, docNorm)
  {
    r := sl;
    for i := 0 to |sl|
      invariant |r| == |sl|
      invariant forall j :: 0 <= j < i ==> r[j] == sl[j].(val := sl[j].val / 2.0 + docNorm)
      invariant forall j :: i <= j < |sl| ==> r[j] == sl[j]
    {
      r := r[i := r[i].(val := r[i].val / 2.0 + docNorm)];
    }
  }

  lemma TouchAllStep(sl: seq<Node>, hn: seq<Node>, i: nat, words: seq<Word>, docs: seq<Doc>, overlapOnly: bool,
                     docNorm: real, dist: Dist, norm: Norm, ops: FloatOps)
    requires i < |hn| && IdsBelow(hn, |words|) && InRange(words, |docs|) && Fits(sl, docs, overlapOnly)
    ensures IdsBelow(hn[..i], |words|) && IdsBelow(hn[..i + 1], |words|)
    ensures PostingsIn(words[hn[i].id].docs, |docs|)
    ensures Fits(TouchAll(sl, hn[..i], words, docs, overlapOnly, docNorm, dist, norm, ops), docs, overlapOnly)
    ensures TouchAll(sl, hn[..i + 1], words, docs, overlapOnly, docNorm, dist, norm, ops)
      == TouchWord(TouchAll(sl, hn[..i], words, docs, overlapOnly, docNorm, dist, norm, ops),
                   hn[i].val, words[hn[i].id].docs, docs, overlapOnly, docNorm, dist, norm, ops)
  {
    assert hn[..i + 1][..i] == hn[..i];
  }

  lemma TouchWordStep(sl: seq<Node>, q: real, ps: seq<WordDoc>, j: nat, docs: seq<Doc>, overlapOnly: bool,
                      docNorm: real, dist: Dist, norm: Norm, ops: FloatOps)
    requires j < |ps| && PostingsIn(ps, |docs|) && Fits(sl, docs, overlapOnly)
    ensures PostingsIn(ps[..j], |docs|) && PostingsIn(ps[..j + 1], |docs|)
    ensures TouchWord(sl, q, ps[..j + 1], docs, overlapOnly, docNorm, dist, norm, ops)
      == Touch(TouchWord(sl, q, ps[..j], docs, overlapOnly, docNorm, dist, norm, ops), q, ps[j], docs, overlapOnly, docNorm, dist, norm, ops)
  {
    assert ps[..j + 1][..j] == ps[..j];
  }

  /** One (query word, posting) pair, as the inner loop does it: direct
      indexing, or lower_bound with an insertion when the document has no
      slot yet, then the three-term update. */
  method TouchSlot(sl: seq<Node>, q: real, p: WordDoc, docs: seq<Doc>, overlapOnly: bool,
                   docNorm: real, dist: Dist, norm: Norm, ops: FloatOps) returns (r: seq<Node>)
    requires p.doc < |docs| && Fits(sl, docs, overlapOnly)
    requires overlapOnly ==> SortedBy(sl, IdOf)
    ensures r == Touch(sl, q, p, docs, overlapOnly, docNorm, dist, norm, ops)
  {
    if !overlapOnly || |sl| == |docs| {
      r := sl[p.doc := sl[p.doc].(val := Update(sl[p.doc].val, q, p.val, dist, ops))];
    } else {
      r := TouchOverlap(sl, q, p, docs, docNorm, dist, norm, ops);
    }
  }

  /** The overlap-only branch of TouchSlot: lower_bound finds the
      document's slot, made first when the document has none. */
  method TouchOverlap(sl: seq<Node>, q: real, p: WordDoc, docs: seq<Doc>,
                  docNorm: real, dist: Dist, norm: Norm, ops: FloatOps) returns (r: seq<Node>)
    requires p.doc < |docs| && SortedBy(sl, IdOf) && |sl| != |docs|
    ensures r == Touch(sl, q, p, docs, true, docNorm, dist, norm, ops)
  {
    var k := LowerBound(sl, IdOf, p.doc);
    TouchAt(sl, q, p, docs, docNorm, dist, norm, ops);
    r := sl;
    if k == |sl| || p.doc < sl[k].id {
      r := sl[..k] + [Node(docNorm + Dist2Norm(docs[p.doc], dist, norm), p.doc)] + sl[k..];
    }
    r := r[k := r[k].(val := Update(r[k].val, q, p.val, dist, ops))];
  }

  /** Touch on the overlap path, with the lower_bound test spelled out as
      the source writes it. */
  lemma TouchAt(sl: seq<Node>, q: real, p: WordDoc, docs: seq<Doc>,
                docNorm: real, dist: Dist, norm: Norm, ops: FloatOps)
    requires p.doc < |docs| && SortedBy(sl, IdOf) && |sl| != |docs|
    ensures var k := LowerBoundPos(sl, IdOf, p.doc);
      var s := if k == |sl| || p.doc < sl[k].id then sl[..k] + [Node(docNorm + Dist2Norm(docs[p.doc], dist, norm), p.doc)] + sl[k..] else sl;
      k < |s| && Touch(sl, q, p, docs, true, docNorm, dist, norm, ops) == s[k := s[k].(val := Update(s[k].val, q, p.val, dist, ops))]
  {
    LowerBoundMiss(sl, IdOf, p.doc);
    var k := LowerBoundPos(sl, IdOf, p.doc);
    if k == |sl| || p.doc < sl[k].id {
      assert SlotSeed(docs, p.doc, docNorm, dist, norm) == docNorm + Dist2Norm(docs[p.doc], dist, norm);
    }
  }

  /** The posting loop of one query word: every posting touches its
      document's slot. */
  method TouchPostings(sl: seq<Node>, q: real, ps: seq<WordDoc>, docs: seq<Doc>, overlapOnly: bool,
                       docNorm: real, dist: Dist, norm: Norm, ops: FloatOps) returns (r: seq<Node>)
    requires PostingsIn(ps, |docs|) && Fits(sl, docs, overlapOnly)
    requires overlapOnly ==> SortedBy(sl, IdOf)
    ensures r == TouchWord(sl, q, ps, docs, overlapOnly, docNorm, dist, norm, ops)
    ensures overlapOnly ==> SortedBy(r, IdOf)
  {
    r := sl;
    assert ps[..0] == [];
    for j := 0 to |ps|
      invariant PostingsIn(ps[..j], |docs|)
      invariant r == TouchWord(sl, q, ps[..j], docs, overlapOnly, docNorm, dist, norm, ops)
      invariant overlapOnly ==> SortedBy(r, IdOf)
    {
      TouchWordStep(sl, q, ps, j, docs, overlapOnly, docNorm, dist, norm, ops);
      if overlapOnly {
        TouchSorted(r, q, ps[j], docs, overlapOnly, docNorm, dist, norm, ops);
      }
      r := TouchSlot(r, q, ps[j], docs, overlapOnly, docNorm, dist, norm, ops);
    }
    assert ps[..|ps|] == ps;
  }

  /** The scoring loops: each query word is normalised against the query
      document, then every posting of the word touches its document's
      slot. */
  method ScoreWords(sl: seq<Node>, hw: seq<Node>, q: Doc, words: seq<Word>, docs: seq<Doc>, overlapOnly: bool,
                    docNorm: real, dist: Dist, norm: Norm, ops: FloatOps) returns (r: seq<Node>)
    requires IdsBelow(hw, |words|) && InRange(words, |docs|) && Fits(sl, docs, overlapOnly)
    requires overlapOnly ==> SortedBy(sl, IdOf)
    ensures IdsBelow(NormQuery(hw, q, norm, ops), |words|)
    ensures r == TouchAll(sl, NormQuery(hw, q, norm, ops), words, docs, overlapOnly, docNorm, dist, norm, ops)
  {
    ghost var hn := NormQuery(hw, q, norm, ops);
    assert forall i :: 0 <= i < |hn| ==> hn[i].id == hw[i].id;
    assert hn[..0] == [];
    r := sl;
    for i := 0 to |hw|
      invariant IdsBelow(hn[..i], |words|)
      invariant r == TouchAll(sl, hn[..i], words, docs, overlapOnly, docNorm, dist, norm, ops)
      invariant overlapOnly ==> SortedBy(r, IdOf)
    {
      var qv := NormVal(hw[i].val, q, norm, ops);
      assert qv == hn[i].val;
      var ps := words[hw[i].id].docs;
      TouchAllStep(sl, hn, i, words, docs, overlapOnly, docNorm, dist, norm, ops);
      r := TouchPostings(r, qv, ps, docs, overlapOnly, docNorm, dist, norm, ops);
    }
    assert hn[..|hw|] == hn;
  }

  /** The post-processing loop, run only for JAC, COS and HISTINT; the
      other schemes keep their scores as accumulated. */
  method PostProcessScores(sl: seq<Node>, docs: seq<Doc>, q: Doc, dist: Dist, ops: FloatOps) returns (r: seq<Node>)
    requires dist == DistJac ==> SlotsIn(sl, |docs|)
    ensures r == PostProcess(sl, docs, q, dist, ops)
  {
    r := sl;
    if dist == DistJac || dist == DistCos || dist == DistHistInt {
      for i := 0 to |sl|
        invariant |r| == |sl|
        invariant forall j :: 0 <= j < i ==> r[j] == PostProcess(sl, docs, q, dist, ops)[j]
        invariant forall j :: i <= j < |sl| ==> r[j] == sl[j]
      {
        var v := r[i].val;
        if dist == DistJac {
          v := 1.0 - Div(ops, v, docs[r[i].id].norml0 + q.norml0 - v);
        } else {
          v := 1.0 - v;
        }
        r := r[i := r[i].(val := v)];
      }
    }
  }

  // Sorting and truncation ---------------------------------------------

  /** Ascending by value, as ivNodeCmpValAsc orders. */
  predicate SortedByVal(s: seq<Node>)
  {
    forall i, j :: 0 <= i < j < |s| ==> s[i].val <= s[j].val
  }

  /** The number of results kept: `k` when 0 < k < the number of scores,
      all of them otherwise. */
  function KeepCount(n: nat, k: nat): (r: nat)
    ensures r <= n
    ensures k == 0 ==> r == n
    ensures r == n || r == k
    ensures 0 < k < n ==> r == k
  {
    if 0 < k < n then k else n
  }

  /** What the sort and the truncation leave: the `KeepCount` smallest
      scores in ascending order. std::sort is not stable, so among equal
      values the order, and which of them are kept, is left open. */
  predicate IsRanking(r: seq<Node>, scores: seq<Node>, k: nat)
  {
    && |r| == KeepCount(|scores|, k)
    && SortedByVal(r)
    && multiset(r) <= multiset(scores)
    && forall x, y :: x in r && y in multiset(scores) - multiset(r) ==> x.val <= y.val
  }

  /** One step of the sort: `x` placed after every value not above it. */
  method InsertSorted(r: seq<Node>, x: Node) returns (t: seq<Node>)
    requires SortedByVal(r)
    ensures SortedByVal(t) && multiset(t) == multiset(r) + multiset{x}
  {
    var j := 0;
    while j < |r| && r[j].val <= x.val
      invariant 0 <= j <= |r|
      invariant forall m :: 0 <= m < j ==> r[m].val <= x.val
    {
      j := j + 1;
    }
    InsertKeepsSorted(r, j, x);
    t := r[..j] + [x] + r[j..];
    assert r == r[..j] + r[j..];
  }

  /** std::sort with ivNodeCmpValAsc: a permutation that is ascending by
      value. */
  method SortByVal(s: seq<Node>) returns (r: seq<Node>)
    ensures SortedByVal(r) && multiset(r) == multiset(s)
  {
    r := [];
    for i := 0 to |s|
      invariant SortedByVal(r) && multiset(r) == multiset(s[..i])
    {
      assert s[..i + 1] == s[..i] + [s[i]];
      r := InsertSorted(r, s[i]);
    }
    assert s[..|s|] == s;
  }

  lemma InsertKeepsSorted(r: seq<Node>, j: nat, x: Node)
    requires SortedByVal(r) && j <= |r|
    requires forall m :: 0 <= m < j ==> r[m].val <= x.val
    requires j < |r| ==> x.val < r[j].val
    ensures SortedByVal(r[..j] + [x] + r[j..])
  {
    var t := r[..j] + [x] + r[j..];
    forall a, b | 0 <= a < b < |t| ensures t[a].val <= t[b].val {
      if b < j {
        assert t[a] == r[a] && t[b] == r[b];
      } else if b == j {
        assert t[a] == r[a];
      } else if a == j {
        assert t[b] == r[b - 1];
      } else if a < j {
        assert t[a] == r[a] && t[b] == r[b - 1];
      } else {
        assert t[a] == r[a - 1] && t[b] == r[b - 1];
      }
    }
  }

  /** In an ascending list, every value before a cut is at most every value
      after it. */
  lemma SortedCut(s: seq<Node>, n: nat)
    requires SortedByVal(s) && n <= |s|
    ensures forall x, y :: x in s[..n] && y in s[n..] ==> x.val <= y.val
  {
    forall x, y | x in s[..n] && y in s[n..] ensures x.val <= y.val {
      var a :| 0 <= a < n && s[..n][a] == x;
      var b :| 0 <= b < |s| - n && s[n..][b] == y;
      assert s[a] == x && s[n + b] == y;
    }
  }

  /** Keeping the first `k` of an ascending permutation of the scores gives
      a ranking of them. */
  lemma PrefixIsRanking(s: seq<Node>, scores: seq<Node>, k: nat)
    requires SortedByVal(s) && multiset(s) == multiset(scores)
    ensures IsRanking(s[..KeepCount(|s|, k)], scores, k)
  {
    var n := KeepCount(|s|, k);
    assert |s| == |scores| by {
      assert |multiset(s)| == |multiset(scores)|;
    }
    var kept, rest := s[..n], s[n..];
    assert s == kept + rest;
    assert multiset(scores) - multiset(kept) == multiset(rest);
    SortedCut(s, n);
    assert SortedByVal(kept);
  }

  // The batch search -----------------------------------------------------

  /** The batch search's starting list without overlapOnly: one slot per
      document, in document order, seeded with twice its self-term. */
  method BuildBaseline(docs: seq<Doc>, dist: Dist, norm: Norm) returns (r: seq<Node>)
    ensures r == Baseline(docs, dist, norm)
  {
    r := [];
    for i := 0 to |docs|
      invariant |r| == i
      invariant forall j :: 0 <= j < i ==> r[j] == Node(2.0 * Dist2Norm(docs[j], dist, norm), j)
    {
      r := r + [Node(2.0 * Dist2Norm(docs[i], dist, norm), i)];
    }
  }

  /** What one search leaves in its score list: the list untouched when
      the index has no words, otherwise a ranking of the scores. */
  predicate Answers(r: seq<Node>, sl: seq<Node>, wlabel: seq<nat>, nwords: nat, words: seq<Word>, docs: seq<Doc>,
                    ndocs: nat, wt: Weight, norm: Norm, dist: Dist, overlapOnly: bool, k: nat, ops: FloatOps)
    requires |words| > 0 ==> SearchReady(sl, nwords, words, docs, dist, overlapOnly)
  {
    if |words| == 0 then r == sl
    else IsRanking(r, Scores(sl, wlabel, nwords, words, docs, ndocs, wt, norm, dist, overlapOnly, ops), k)
  }

  /** The list every query of the batch starts from: every document seeded
      with twice its self-term, or nothing with overlapOnly. */
  function BatchSeed(docs: seq<Doc>, dist: Dist, norm: Norm, overlapOnly: bool): seq<Node>
  {
    if overlapOnly then [] else Baseline(docs, dist, norm)
  }

  /** The batch seed is a list a search accepts. */
  lemma BatchSeedReady(nwords: nat, words: seq<Word>, docs: seq<Doc>, dist: Dist, norm: Norm, overlapOnly: bool)
    requires nwords <= |words| && InRange(words, |docs|)
    ensures SearchReady(BatchSeed(docs, dist, norm, overlapOnly), nwords, words, docs, dist, overlapOnly)
  {
  }

  /** The scores of one query, one stage at a time. */
  lemma ScoresStages(sl: seq<Node>, wlabel: seq<nat>, nwords: nat, words: seq<Word>, docs: seq<Doc>, ndocs: nat,
                     wt: Weight, norm: Norm, dist: Dist, overlapOnly: bool, ops: FloatOps)
    requires SearchReady(sl, nwords, words, docs, dist, overlapOnly)
    ensures var hw := QueryWeights(wlabel, nwords, words, wt, ndocs, ops);
      var q := QueryDoc(hw, |wlabel|);
      var docNorm := Dist2Norm(q, dist, norm);
      var seeded := if !overlapOnly && norm == NormNone then Halve(sl, docNorm) else sl;
      var touched := TouchAll(seeded, NormQuery(hw, q, norm, ops), words, docs, overlapOnly, docNorm, dist, norm, ops);
      && (dist == DistJac ==> SlotsIn(touched, |docs|))
      && Scores(sl, wlabel, nwords, words, docs, ndocs, wt, norm, dist, overlapOnly, ops) == PostProcess(touched, docs, q, dist, ops)
  {
    var hw := QueryWeights(wlabel, nwords, words, wt, ndocs, ops);
    var q := QueryDoc(hw, |wlabel|);
    var docNorm := Dist2Norm(q, dist, norm);
    var seeded := if !overlapOnly && norm == NormNone then Halve(sl, docNorm) else sl;
    var hn := NormQuery(hw, q, norm, ops);
    if dist == DistJac {
      TouchAllSlotsIn(seeded, hn, words, docs, overlapOnly, docNorm, dist, norm, ops);
    }
  }

  /** The scores of one query as `search` computes them before sorting. */
  method ScoreQuery(wlabel: seq<nat>, nwords: nat, words: seq<Word>, docs: seq<Doc>, ndocs: nat, wt: Weight, norm: Norm,
                    dist: Dist, overlapOnly: bool, scorelist: seq<Node>, ops: FloatOps) returns (sl: seq<Node>)
    requires SearchReady(scorelist, nwords, words, docs, dist, overlapOnly)
    ensures sl == Scores(scorelist, wlabel, nwords, words, docs, ndocs, wt, norm, dist, overlapOnly, ops)
  {
    var wc := CountWords(wlabel, nwords);
    HistogramIdsBelow(wlabel, nwords);
    var hw, q := WeighCounts(wc, words, wt, ndocs, |wlabel|, ops);
    assert hw == QueryWeights(wlabel, nwords, words, wt, ndocs, ops);
    var docNorm := Dist2Norm(q, dist, norm);
    sl := scorelist;
    if !overlapOnly && norm == NormNone {
      sl := HalveScores(sl, docNorm);
    }
    ScoresStages(scorelist, wlabel, nwords, words, docs, ndocs, wt, norm, dist, overlapOnly, ops);
    sl := ScoreWords(sl, hw, q, words, docs, overlapOnly, docNorm, dist, norm, ops);
    sl := PostProcessScores(sl, docs, q, dist, ops);
  }

  /** One query of `search`: the scores sorted ascending, keeping the first
      `k` (all when `k` is 0). Without words the list is returned as it
      was given. */
  method Query(wlabel: seq<nat>, nwords: nat, words: seq<Word>, docs: seq<Doc>, ndocs: nat, wt: Weight, norm: Norm,
               dist: Dist, overlapOnly: bool, k: nat, scorelist: seq<Node>, ops: FloatOps) returns (r: seq<Node>)
    requires |words| > 0 ==> SearchReady(scorelist, nwords, words, docs, dist, overlapOnly)
    ensures Answers(r, scorelist, wlabel, nwords, words, docs, ndocs, wt, norm, dist, overlapOnly, k, ops)
  {
    if |words| == 0 {
      return scorelist;
    }
    var sl := ScoreQuery(wlabel, nwords, words, docs, ndocs, wt, norm, dist, overlapOnly, scorelist, ops);
    var sorted := SortByVal(sl);
    PrefixIsRanking(sorted, sl, k);
    r := sorted[..KeepCount(|sorted|, k)];
  }

  /** The batch search: one score list per query document, each from the
      same seed. */
  method QueryBatch(data: seq<seq<nat>>, nwords: nat, words: seq<Word>, docs: seq<Doc>, ndocs: nat, wt: Weight,
                    norm: Norm, dist: Dist, overlapOnly: bool, k: nat, ops: FloatOps) returns (lists: seq<seq<Node>>)
    requires nwords <= |words| && InRange(words, |docs|)
    ensures SearchReady(BatchSeed(docs, dist, norm, overlapOnly), nwords, words, docs, dist, overlapOnly)
    ensures |lists| == |data|
    ensures forall d :: 0 <= d < |data| ==>
      Answers(lists[d], BatchSeed(docs, dist, norm, overlapOnly), data[d], nwords, words, docs, ndocs, wt, norm, dist, overlapOnly, k, ops)
  {
    var seed: seq<Node> := [];
    if !overlapOnly {
      seed := BuildBaseline(docs, dist, norm);
    }
    BatchSeedReady(nwords, words, docs, dist, norm, overlapOnly);
    assert seed == BatchSeed(docs, dist, norm, overlapOnly);
    lists := QueryAll(data, nwords, words, docs, ndocs, wt, norm, dist, overlapOnly, k, seed, ops);
  }

  /** The first |lists| queries of `data` are answered by `lists`. */
  ghost predicate AllAnswered(lists: seq<seq<Node>>, sl: seq<Node>, data: seq<seq<nat>>, nwords: nat, words: seq<Word>, docs: seq<Doc>,
                              ndocs: nat, wt: Weight, norm: Norm, dist: Dist, overlapOnly: bool, k: nat, ops: FloatOps)
    requires |words| > 0 ==> SearchReady(sl, nwords, words, docs, dist, overlapOnly)
    requires |lists| <= |data|
  {
    |lists| == 0 ||
      var n := |lists| - 1;
      AllAnswered(lists[..n], sl, data, nwords, words, docs, ndocs, wt, norm, dist, overlapOnly, k, ops)
      && Answers(lists[n], sl, data[n], nwords, words, docs, ndocs, wt, norm, dist, overlapOnly, k, ops)
  }

  lemma {:induction false} AllAnsweredAt(lists: seq<seq<Node>>, sl: seq<Node>, data: seq<seq<nat>>, nwords: nat, words: seq<Word>,
                                         docs: seq<Doc>, ndocs: nat, wt: Weight, norm: Norm, dist: Dist, overlapOnly: bool, k: nat,
                                         ops: FloatOps, e: nat)
    requires |words| > 0 ==> SearchReady(sl, nwords, words, docs, dist, overlapOnly)
    requires e < |lists| <= |data|
    requires AllAnswered(lists, sl, data, nwords, words, docs, ndocs, wt, norm, dist, overlapOnly, k, ops)
    ensures Answers(lists[e], sl, data[e], nwords, words, docs, ndocs, wt, norm, dist, overlapOnly, k, ops)
  {
    var n := |lists| - 1;
    if e < n {
      AllAnsweredAt(lists[..n], sl, data, nwords, words, docs, ndocs, wt, norm, dist, overlapOnly, k, ops, e);
      assert lists[..n][e] == lists[e];
    }
  }

  /** Every query of a batch, each searched from the same starting list. */
  method QueryAll(data: seq<seq<nat>>, nwords: nat, words: seq<Word>, docs: seq<Doc>, ndocs: nat, wt: Weight,
                  norm: Norm, dist: Dist, overlapOnly: bool, k: nat, seed: seq<Node>, ops: FloatOps) returns (lists: seq<seq<Node>>)
    requires |words| > 0 ==> SearchReady(seed, nwords, words, docs, dist, overlapOnly)
    ensures |lists| == |data|
    ensures forall d :: 0 <= d < |data| ==>
      Answers(lists[d], seed, data[d], nwords, words, docs, ndocs, wt, norm, dist, overlapOnly, k, ops)
  {
    lists := [];
    for d := 0 to |data|
      invariant |lists| == d
      invariant AllAnswered(lists, seed, data, nwords, words, docs, ndocs, wt, norm, dist, overlapOnly, k, ops)
    {
      var r := Query(data[d], nwords, words, docs, ndocs, wt, norm, dist, overlapOnly, k, seed, ops);
      ghost var prev := lists;
      lists := lists + [r];
      assert lists[..d] == prev;
    }
    forall d | 0 <= d < |data|
      ensures Answers(lists[d], seed, data[d], nwords, words, docs, ndocs, wt, norm, dist, overlapOnly, k, ops)
    {
      AllAnsweredAt(lists, seed, data, nwords, words, docs, ndocs, wt, norm, dist, overlapOnly, k, ops, d);
    }
  }
}
