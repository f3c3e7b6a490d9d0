/** What the single-query and the batch `search` compute: the query
    histogram and its statistics, the score list's seeding and sparse
    update, the post-processing, and the sorted, truncated result. */
module Search {
  import opened Entries
  import opened PostingList
  import opened Kernels
  import opened Filling
  import opened Stats

  // The query ----------------------------------------------------------

  /** A query token is counted when its word label names a word. */
  predicate ValidLabel(t: nat, nwords: nat)
  {
    0 < t <= nwords
  }

  /** The query histogram `wordcount`: one node per distinct valid word
      (id = label - 1), its value the number of tokens naming it. */
  function Histogram(wlabel: seq<nat>, nwords: nat): seq<Node>
  {
    if |wlabel| == 0 then []
    else
      var n := |wlabel| - 1;
      var prev := Histogram(wlabel[..n], nwords);
      if ValidLabel(wlabel[n], nwords) then Tally(prev, wlabel[n] - 1) else prev
  }

  /** The ids the valid tokens name. */
  function LabelIds(wlabel: seq<nat>, nwords: nat): set<nat>
  {
    if |wlabel| == 0 then {}
    else
      var n := |wlabel| - 1;
      LabelIds(wlabel[..n], nwords) + (if ValidLabel(wlabel[n], nwords) then {wlabel[n] - 1} else {})
  }

  /** The number of valid tokens. */
  function ValidCount(wlabel: seq<nat>, nwords: nat): nat
  {
    if |wlabel| == 0 then 0
    else
      var n := |wlabel| - 1;
      ValidCount(wlabel[..n], nwords) + (if ValidLabel(wlabel[n], nwords) then 1 else 0)
  }

  lemma HistogramStep(wlabel: seq<nat>, nwords: nat)
    requires |wlabel| > 0
    ensures Histogram(wlabel, nwords) ==
      var n := |wlabel| - 1;
      if ValidLabel(wlabel[n], nwords) then Tally(Histogram(wlabel[..n], nwords), wlabel[n] - 1)
      else Histogram(wlabel[..n], nwords)
  {
  }

  /** The histogram is strictly ascending by id and has one node per word
      the valid tokens name. */
  lemma {:induction false} HistogramShape(wlabel: seq<nat>, nwords: nat)
    ensures SortedBy(Histogram(wlabel, nwords), IdOf)
    ensures Keys(Histogram(wlabel, nwords), IdOf) == LabelIds(wlabel, nwords)
  {
    if |wlabel| > 0 {
      var n := |wlabel| - 1;
      HistogramShape(wlabel[..n], nwords);
      HistogramStep(wlabel, nwords);
      if ValidLabel(wlabel[n], nwords) {
        TallySorted(Histogram(wlabel[..n], nwords), wlabel[n] - 1);
      }
    }
  }

  /** The histogram's values add up to the number of valid tokens. */
  lemma {:induction false} HistogramTotal(wlabel: seq<nat>, nwords: nat)
    ensures SumVals(Histogram(wlabel, nwords)) == ValidCount(wlabel, nwords) as real
  {
    if |wlabel| > 0 {
      var n := |wlabel| - 1;
      HistogramTotal(wlabel[..n], nwords);
      HistogramStep(wlabel, nwords);
      if ValidLabel(wlabel[n], nwords) {
        TallySum(Histogram(wlabel[..n], nwords), wlabel[n] - 1);
      }
    }
  }

  lemma {:induction false} LabelIdsBelow(wlabel: seq<nat>, nwords: nat)
    ensures forall x :: x in LabelIds(wlabel, nwords) ==> x < nwords
  {
    if |wlabel| > 0 {
      LabelIdsBelow(wlabel[..|wlabel| - 1], nwords);
    }
  }

  /** Every node of the histogram names a word below `nwords`. */
  predicate IdsBelow(ns: seq<Node>, n: nat)
  {
    forall i :: 0 <= i < |ns| ==> ns[i].id < n
  }

  lemma HistogramIdsBelow(wlabel: seq<nat>, nwords: nat)
    ensures IdsBelow(Histogram(wlabel, nwords), nwords)
  {
    var h := Histogram(wlabel, nwords);
    HistogramShape(wlabel, nwords);
    LabelIdsBelow(wlabel, nwords);
    forall i | 0 <= i < |h| ensures h[i].id < nwords {
      assert h[i].id in Keys(h, IdOf);
    }
  }

  /** The query document before its norms are accumulated: only its token
      count is set, which is all weightVal reads. */
  function QueryTokens(ntokens: nat): Doc
  {
    NewDoc.(ntokens := ntokens)
  }

  /** The weighted histogram; `ndocs` is the index's document count. */
  function WeighQuery(h: seq<Node>, words: seq<Word>, wt: Weight, ndocs: nat, ntokens: nat, ops: FloatOps): (r: seq<Node>)
    requires IdsBelow(h, |words|)
    ensures |r| == |h|
  {
    seq(|h|, i requires 0 <= i < |h| =>
      Node(WeightVal(h[i].val, words[h[i].id], QueryTokens(ntokens), wt, ndocs, ops), h[i].id))
  }

  function SumSqVals(ns: seq<Node>): real
  {
    if |ns| == 0 then 0.0 else SumSqVals(ns[..|ns| - 1]) + ns[|ns| - 1].val * ns[|ns| - 1].val
  }

  /** The query document: `norml0` counts its distinct words, `norml1` and
      `norml2` sum their weighted values and squares, `ntokens` counts every
      token given, valid or not, and its word list stays empty. */
  function QueryDoc(hw: seq<Node>, ntokens: nat): Doc
  {
    Doc(|hw| as real, SumVals(hw), SumSqVals(hw), ntokens, |hw|, [])
  }

  /** The normalised query values. */
  function NormQuery(hw: seq<Node>, q: Doc, norm: Norm, ops: FloatOps): (r: seq<Node>)
    ensures |r| == |hw|
  {
    seq(|hw|, i requires 0 <= i < |hw| => hw[i].(val := NormVal(hw[i].val, q, norm, ops)))
  }

  // The score list -----------------------------------------------------

  /** Folding the query's self-term into a list seeded with twice each
      document's self-term. */
  function Halve(sl: seq<Node>, docNorm: real): (r: seq<Node>)
    ensures |r| == |sl|
  {
    seq(|sl|, i requires 0 <= i < |sl| => sl[i].(val := sl[i].val / 2.0 + docNorm))
  }

  /** The three-term sparse update of one score for one shared dimension. */
  function Update(v: real, q: real, p: real, dist: Dist, ops: FloatOps): real
  {
    v - (DistVal(q, 0.0, dist, ops) + DistVal(p, 0.0, dist, ops)) + DistVal(q, p, dist, ops)
  }

  /** Whether a posting's slot is found by direct indexing. */
  predicate Direct(sl: seq<Node>, docs: seq<Doc>, overlapOnly: bool)
  {
    !overlapOnly || |sl| == |docs|
  }

  /** The value a new overlap slot for document `d` starts from. */
  function SlotSeed(docs: seq<Doc>, d: nat, docNorm: real, dist: Dist, norm: Norm): real
    requires d < |docs|
  {
    docNorm + Dist2Norm(docs[d], dist, norm)
  }

  /** One (query word, posting) pair: find or make the document's slot and
      apply the sparse update to it. */
  function Touch(sl: seq<Node>, q: real, p: WordDoc, docs: seq<Doc>, overlapOnly: bool,
                 docNorm: real, dist: Dist, norm: Norm, ops: FloatOps): (r: seq<Node>)
    requires p.doc < |docs|
    requires !overlapOnly ==> p.doc < |sl|
    ensures |r| >= |sl|
  {
    if Direct(sl, docs, overlapOnly) then
      sl[p.doc := sl[p.doc].(val := Update(sl[p.doc].val, q, p.val, dist, ops))]
    else
      var i := LowerBoundPos(sl, IdOf, p.doc);
      var s := InsertAbsent(sl, IdOf, p.doc, Node(SlotSeed(docs, p.doc, docNorm, dist, norm), p.doc));
      s[i := s[i].(val := Update(s[i].val, q, p.val, dist, ops))]
  }

  /** The requirement the source's indexing places on a score list. */
  predicate Fits(sl: seq<Node>, docs: seq<Doc>, overlapOnly: bool)
  {
    !overlapOnly ==> |docs| <= |sl|
  }

  /** All postings of one query word. */
  function TouchWord(sl: seq<Node>, q: real, ps: seq<WordDoc>, docs: seq<Doc>, overlapOnly: bool,
                     docNorm: real, dist: Dist, norm: Norm, ops: FloatOps): (r: seq<Node>)
    requires PostingsIn(ps, |docs|) && Fits(sl, docs, overlapOnly)
    ensures |r| >= |sl|
  {
    if |ps| == 0 then sl
    else
      var n := |ps| - 1;
      Touch(TouchWord(sl, q, ps[..n], docs, overlapOnly, docNorm, dist, norm, ops), q, ps[n], docs, overlapOnly, docNorm, dist, norm, ops)
  }

  /** All query words, in ascending id order. */
  function TouchAll(sl: seq<Node>, hn: seq<Node>, words: seq<Word>, docs: seq<Doc>, overlapOnly: bool,
                    docNorm: real, dist: Dist, norm: Norm, ops: FloatOps): (r: seq<Node>)
    requires IdsBelow(hn, |words|) && InRange(words, |docs|) && Fits(sl, docs, overlapOnly)
    ensures |r| >= |sl|
  {
    if |hn| == 0 then sl
    else
      var n := |hn| - 1;
      var prev := TouchAll(sl, hn[..n], words, docs, overlapOnly, docNorm, dist, norm, ops);
      assert PostingsIn(words[hn[n].id].docs, |docs|);
      TouchWord(prev, hn[n].val, words[hn[n].id].docs, docs, overlapOnly, docNorm, dist, norm, ops)
  }

  /** Every slot of the list names an indexed document. */
  predicate SlotsIn(sl: seq<Node>, n: nat)
  {
    forall i :: 0 <= i < |sl| ==> sl[i].id < n
  }

  /** The final value of a score: JAC turns the intersection size into one
      minus the Jaccard index, COS and HISTINT turn a similarity into
      one minus it. */
  function Finish(v: real, doc: Doc, q: Doc, dist: Dist, ops: FloatOps): (r: real)
    ensures dist == DistCos || dist == DistHistInt ==> r == 1.0 - v
    ensures dist == DistJac && doc.norml0 + q.norml0 - v != 0.0 ==> (1.0 - r) * (doc.norml0 + q.norml0 - v) == v
    ensures !(dist == DistJac || dist == DistCos || dist == DistHistInt) ==> r == v
  {
    match dist
    case DistJac => 1.0 - Div(ops, v, doc.norml0 + q.norml0 - v)
    case DistCos => 1.0 - v
    case DistHistInt => 1.0 - v
    case _ => v
  }

  function PostProcess(sl: seq<Node>, docs: seq<Doc>, q: Doc, dist: Dist, ops: FloatOps): (r: seq<Node>)
    requires dist == DistJac ==> SlotsIn(sl, |docs|)
    ensures |r| == |sl|
  {
    seq(|sl|, i requires 0 <= i < |sl| =>
      sl[i].(val := Finish(sl[i].val, if dist == DistJac then docs[sl[i].id] else NewDoc, q, dist, ops)))
  }

  /** What a single search asks of the index and of its score list, beyond
      a nonempty word list: ids below `nwords` name words, postings name
      documents, the direct path finds its slots, the overlap path finds a
      list sorted by id (the precondition of lower_bound), and the JAC
      post-processing finds the documents its slots name. */
  predicate SearchReady(sl: seq<Node>, nwords: nat, words: seq<Word>, docs: seq<Doc>, dist: Dist, overlapOnly: bool)
  {
    && nwords <= |words| && InRange(words, |docs|)
    && (!overlapOnly ==> |sl| == |docs|)
    && (overlapOnly ==> SortedBy(sl, IdOf))
    && (dist == DistJac ==> SlotsIn(sl, |docs|))
  }

  /** The weighted query histogram. */
  function QueryWeights(wlabel: seq<nat>, nwords: nat, words: seq<Word>, wt: Weight, ndocs: nat, ops: FloatOps): (r: seq<Node>)
    requires nwords <= |words|
    ensures IdsBelow(r, |words|)
  {
    var h := Histogram(wlabel, nwords);
    HistogramIdsBelow(wlabel, nwords);
    var hw := WeighQuery(h, words, wt, ndocs, |wlabel|, ops);
    assert forall i :: 0 <= i < |hw| ==> hw[i].id == h[i].id;
    hw
  }

  /** The scores of every touched or seeded document, before sorting. */
  function Scores(sl: seq<Node>, wlabel: seq<nat>, nwords: nat, words: seq<Word>, docs: seq<Doc>, ndocs: nat,
                  wt: Weight, norm: Norm, dist: Dist, overlapOnly: bool, ops: FloatOps): (r: seq<Node>)
    requires SearchReady(sl, nwords, words, docs, dist, overlapOnly)
  {
    var hw := QueryWeights(wlabel, nwords, words, wt, ndocs, ops);
    var q := QueryDoc(hw, |wlabel|);
    var docNorm := Dist2Norm(q, dist, norm);
    var seeded := if !overlapOnly && norm == NormNone then Halve(sl, docNorm) else sl;
    var hn := NormQuery(hw, q, norm, ops);
    assert forall i :: 0 <= i < |hn| ==> hn[i].id == hw[i].id;
    var touched := TouchAll(seeded, hn, words, docs, overlapOnly, docNorm, dist, norm, ops);
    assert dist == DistJac ==> SlotsIn(touched, |docs|) by {
      if dist == DistJac {
        TouchAllSlotsIn(seeded, hn, words, docs, overlapOnly, docNorm, dist, norm, ops);
      }
    }
    PostProcess(touched, docs, q, dist, ops)
  }

  // Lemmas about the score list ---------------------------------------

  lemma TouchSlotsIn(sl: seq<Node>, q: real, p: WordDoc, docs: seq<Doc>, overlapOnly: bool,
                     docNorm: real, dist: Dist, norm: Norm, ops: FloatOps)
    requires p.doc < |docs| && (!overlapOnly ==> p.doc < |sl|)
    requires SlotsIn(sl, |docs|)
    ensures SlotsIn(Touch(sl, q, p, docs, overlapOnly, docNorm, dist, norm, ops), |docs|)
  {
    if !Direct(sl, docs, overlapOnly) {
      var i := LowerBoundPos(sl, IdOf, p.doc);
      var s := InsertAbsent(sl, IdOf, p.doc, Node(SlotSeed(docs, p.doc, docNorm, dist, norm), p.doc));
      assert forall j :: 0 <= j < |s| ==> s[j] in sl || s[j].id == p.doc;
    }
  }

  lemma {:induction false} TouchAllSlotsIn(sl: seq<Node>, hn: seq<Node>, words: seq<Word>, docs: seq<Doc>, overlapOnly: bool,
                                           docNorm: real, dist: Dist, norm: Norm, ops: FloatOps)
    requires IdsBelow(hn, |words|) && InRange(words, |docs|) && Fits(sl, docs, overlapOnly)
    requires SlotsIn(sl, |docs|)
    ensures SlotsIn(TouchAll(sl, hn, words, docs, overlapOnly, docNorm, dist, norm, ops), |docs|)
  {
    if |hn| > 0 {
      var n := |hn| - 1;
      TouchAllSlotsIn(sl, hn[..n], words, docs, overlapOnly, docNorm, dist, norm, ops);
      var prev := TouchAll(sl, hn[..n], words, docs, overlapOnly, docNorm, dist, norm, ops);
      assert PostingsIn(words[hn[n].id].docs, |docs|);
      TouchWordSlotsIn(prev, hn[n].val, words[hn[n].id].docs, docs, overlapOnly, docNorm, dist, norm, ops);
    }
  }

  lemma {:induction false} TouchWordSlotsIn(sl: seq<Node>, q: real, ps: seq<WordDoc>, docs: seq<Doc>, overlapOnly: bool,
                                            docNorm: real, dist: Dist, norm: Norm, ops: FloatOps)
    requires PostingsIn(ps, |docs|) && Fits(sl, docs, overlapOnly)
    requires SlotsIn(sl, |docs|)
    ensures SlotsIn(TouchWord(sl, q, ps, docs, overlapOnly, docNorm, dist, norm, ops), |docs|)
  {
    if |ps| > 0 {
      var n := |ps| - 1;
      TouchWordSlotsIn(sl, q, ps[..n], docs, overlapOnly, docNorm, dist, norm, ops);
      TouchSlotsIn(TouchWord(sl, q, ps[..n], docs, overlapOnly, docNorm, dist, norm, ops), q, ps[n], docs, overlapOnly, docNorm, dist, norm, ops);
    }
  }

  // Seeding ------------------------------------------------------------

  /** The batch search's starting list without overlapOnly: slot `i` is
      document `i`, seeded with twice its self-term. */
  function Baseline(docs: seq<Doc>, dist: Dist, norm: Norm): (r: seq<Node>)
    ensures |r| == |docs|
    ensures forall i :: 0 <= i < |docs| ==> r[i].id == i && r[i].val == 2.0 * Dist2Norm(docs[i], dist, norm)
  {
    seq(|docs|, i requires 0 <= i < |docs| => Node(2.0 * Dist2Norm(docs[i], dist, norm), i))
  }

  /** With a norm, dist2Norm does not depend on the document. */
  lemma Dist2NormUniform(a: Doc, b: Doc, dist: Dist, norm: Norm)
    requires norm != NormNone
    ensures Dist2Norm(a, dist, norm) == Dist2Norm(b, dist, norm)
  {
  }

  /** Whatever the norm, once the query's self-term is folded in, every slot
      of the baseline holds the document's self-term plus the query's, the
      same value a new overlap slot starts from. */
  lemma BaselineSeedsEverySlot(docs: seq<Doc>, q: Doc, dist: Dist, norm: Norm)
    ensures var docNorm := Dist2Norm(q, dist, norm);
      var seeded := if norm == NormNone then Halve(Baseline(docs, dist, norm), docNorm) else Baseline(docs, dist, norm);
      forall i :: 0 <= i < |docs| ==> seeded[i] == Node(SlotSeed(docs, i, docNorm, dist, norm), i)
  {
    var docNorm := Dist2Norm(q, dist, norm);
    forall i | 0 <= i < |docs|
      ensures (if norm == NormNone then Halve(Baseline(docs, dist, norm), docNorm) else Baseline(docs, dist, norm))[i]
        == Node(SlotSeed(docs, i, docNorm, dist, norm), i)
    {
      if norm != NormNone {
        Dist2NormUniform(docs[i], q, dist, norm);
      }
    }
  }

  // The sparse update ---------------------------------------------------

  /** The update is the score plus the correction for one shared dimension. */
  lemma UpdateIsCorrection(v: real, q: real, p: real, dist: Dist, ops: FloatOps)
    ensures Update(v, q, p, dist, ops) == v + Correction(q, p, dist, ops)
  {
  }

  /** A touch keeps the list sorted and unique by id; on the overlap path it
      adds the posting's document to the ids, on the direct path the ids
      stay as they were. */
  lemma TouchSorted(sl: seq<Node>, q: real, p: WordDoc, docs: seq<Doc>, overlapOnly: bool,
                    docNorm: real, dist: Dist, norm: Norm, ops: FloatOps)
    requires p.doc < |docs| && (!overlapOnly ==> p.doc < |sl|)
    requires SortedBy(sl, IdOf)
    ensures var r := Touch(sl, q, p, docs, overlapOnly, docNorm, dist, norm, ops);
      && SortedBy(r, IdOf)
      && Keys(r, IdOf) == if Direct(sl, docs, overlapOnly) then Keys(sl, IdOf) else Keys(sl, IdOf) + {p.doc}
  {
    var r := Touch(sl, q, p, docs, overlapOnly, docNorm, dist, norm, ops);
    if Direct(sl, docs, overlapOnly) {
      SameIdsSameOrder(sl, r);
    } else {
      var i := LowerBoundPos(sl, IdOf, p.doc);
      var seed := Node(SlotSeed(docs, p.doc, docNorm, dist, norm), p.doc);
      var s := InsertAbsent(sl, IdOf, p.doc, seed);
      InsertAbsentSorted(sl, IdOf, p.doc, seed);
      PresentIffKey(sl, IdOf, p.doc);
      InsertAbsentKeys(sl, IdOf, p.doc, seed);
      SameIdsSameOrder(s, r);
    }
  }

  /** Changing values only keeps ids, so order and id set. */
  lemma SameIdsSameOrder(a: seq<Node>, b: seq<Node>)
    requires |a| == |b| && forall i :: 0 <= i < |a| ==> a[i].id == b[i].id
    ensures SortedBy(a, IdOf) ==> SortedBy(b, IdOf)
    ensures Keys(a, IdOf) == Keys(b, IdOf)
  {
    assert forall i :: 0 <= i < |a| ==> IdOf(a[i]) == IdOf(b[i]);
  }

  /** On the overlap path, a document seen for the first time gets a slot
      seeded with the two self-terms, at its sorted place, and the update is
      applied to that seed. */
  lemma TouchNewSlot(sl: seq<Node>, q: real, p: WordDoc, docs: seq<Doc>, overlapOnly: bool,
                     docNorm: real, dist: Dist, norm: Norm, ops: FloatOps)
    requires p.doc < |docs| && overlapOnly && |sl| != |docs|
    requires SortedBy(sl, IdOf) && p.doc !in Keys(sl, IdOf)
    ensures var r := Touch(sl, q, p, docs, overlapOnly, docNorm, dist, norm, ops);
      var i := LowerBoundPos(sl, IdOf, p.doc);
      && |r| == |sl| + 1 && i < |r|
      && r[i] == Node(Update(SlotSeed(docs, p.doc, docNorm, dist, norm), q, p.val, dist, ops), p.doc)
      && r[..i] == sl[..i] && r[i + 1..] == sl[i..]
  {
    PresentIffKey(sl, IdOf, p.doc);
  }

  lemma {:induction false} TouchWordSorted(sl: seq<Node>, q: real, ps: seq<WordDoc>, docs: seq<Doc>, overlapOnly: bool,
                                           docNorm: real, dist: Dist, norm: Norm, ops: FloatOps)
    requires PostingsIn(ps, |docs|) && Fits(sl, docs, overlapOnly)
    requires SortedBy(sl, IdOf)
    ensures SortedBy(TouchWord(sl, q, ps, docs, overlapOnly, docNorm, dist, norm, ops), IdOf)
  {
    if |ps| > 0 {
      var n := |ps| - 1;
      TouchWordSorted(sl, q, ps[..n], docs, overlapOnly, docNorm, dist, norm, ops);
      TouchSorted(TouchWord(sl, q, ps[..n], docs, overlapOnly, docNorm, dist, norm, ops), q, ps[n], docs, overlapOnly, docNorm, dist, norm, ops);
    }
  }

  /** The overlap-only score list stays strictly ascending by id. */
  lemma {:induction false} TouchAllSorted(sl: seq<Node>, hn: seq<Node>, words: seq<Word>, docs: seq<Doc>, overlapOnly: bool,
                                          docNorm: real, dist: Dist, norm: Norm, ops: FloatOps)
    requires IdsBelow(hn, |words|) && InRange(words, |docs|) && Fits(sl, docs, overlapOnly)
    requires SortedBy(sl, IdOf)
    ensures SortedBy(TouchAll(sl, hn, words, docs, overlapOnly, docNorm, dist, norm, ops), IdOf)
  {
    if |hn| > 0 {
      var n := |hn| - 1;
      TouchAllSorted(sl, hn[..n], words, docs, overlapOnly, docNorm, dist, norm, ops);
      assert PostingsIn(words[hn[n].id].docs, |docs|);
      TouchWordSorted(TouchAll(sl, hn[..n], words, docs, overlapOnly, docNorm, dist, norm, ops), hn[n].val, words[hn[n].id].docs, docs, overlapOnly, docNorm, dist, norm, ops);
    }
  }

  /** A list sorted by id whose ids are all below its length holds slot `i`
      at position `i`: once the overlap list has a slot for every document,
      the switch to direct indexing finds the same slot lower_bound would. */
  lemma FullSortedIsIdentity(sl: seq<Node>)
    requires SortedBy(sl, IdOf) && SlotsIn(sl, |sl|)
    ensures forall i :: 0 <= i < |sl| ==> sl[i].id == i
  {
    forall i | 0 <= i < |sl| ensures sl[i].id == i {
      IdsAtLeastIndex(sl, i);
      IdsAtMostIndex(sl, i);
    }
  }

  lemma {:induction false} IdsAtLeastIndex(sl: seq<Node>, i: nat)
    requires SortedBy(sl, IdOf) && i < |sl|
    ensures sl[i].id >= i
  {
    if i > 0 {
      IdsAtLeastIndex(sl, i - 1);
      assert IdOf(sl[i - 1]) < IdOf(sl[i]);
    }
  }

  lemma {:induction false} IdsAtMostIndex(sl: seq<Node>, i: nat)
    requires SortedBy(sl, IdOf) && SlotsIn(sl, |sl|) && i < |sl|
    ensures sl[i].id <= i
    decreases |sl| - i
  {
    if i + 1 < |sl| {
      IdsAtMostIndex(sl, i + 1);
      assert IdOf(sl[i]) < IdOf(sl[i + 1]);
    }
  }

  lemma DirectFindsLowerBound(sl: seq<Node>, d: nat)
    requires SortedBy(sl, IdOf) && SlotsIn(sl, |sl|) && d < |sl|
    ensures LowerBoundPos(sl, IdOf, d) == d && Present(sl, IdOf, d)
  {
    FullSortedIsIdentity(sl);
    LowerBoundPosUnique(sl, IdOf, d, d);
  }
}
