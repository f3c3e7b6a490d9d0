/** The three passes of `computeStats` as loops, each proved to compute the
    function of module Stats that specifies it. */
module StatsSteps {
  import opened Entries
  import opened PostingList
  import opened Kernels
  import opened Filling
  import opened Stats

  /** The reset pass over the documents. */
  method ResetDocs(ds: seq<Doc>) returns (r: seq<Doc>)
    ensures r == ResetAll(ds)
  {
    r := ds;
    for i := 0 to |ds|
      invariant |r| == |ds|
      invariant forall j :: 0 <= j < i ==> r[j] == Reset(ds[j])
      invariant forall j :: i <= j < |ds| ==> r[j] == ds[j]
    {
      r := r[i := r[i].(norml0 := 0.0, norml1 := 0.0, norml2 := 0.0, nwords := 0, words := [])];
    }
  }

  /** The weighting depends on the documents only through their token
      counts. */
  lemma WeightedReadsTokensOnly(ws: seq<Word>, d1: seq<Doc>, d2: seq<Doc>, wt: Weight, n: nat, ops: FloatOps)
    requires |d1| == |d2| && forall d :: 0 <= d < |d1| ==> d1[d].ntokens == d2[d].ntokens
    requires InRange(ws, |d1|)
    ensures Weighted(ws, d1, wt, n, ops) == Weighted(ws, d2, wt, n, ops)
  {
    forall i | 0 <= i < |ws| ensures Weighed(ws[i], d1, wt, n, ops) == Weighed(ws[i], d2, wt, n, ops) {
      var w := ws[i];
      var w' := w.(ndocs := |w.docs|);
      forall j | 0 <= j < |w.docs|
        ensures WeightVal(w.docs[j].count as real, w', d1[w.docs[j].doc], wt, n, ops)
             == WeightVal(w.docs[j].count as real, w', d2[w.docs[j].doc], wt, n, ops)
      {
        WeightValReadsTokensOnly(w.docs[j].count as real, w', d1[w.docs[j].doc], d2[w.docs[j].doc], wt, n, ops);
      }
    }
  }

  lemma CreditPostingsSnoc(ds: seq<Doc>, i: nat, ps: seq<WordDoc>, x: WordDoc)
    requires PostingsIn(ps, |ds|) && x.doc < |ds|
    ensures PostingsIn(ps + [x], |ds|)
    ensures CreditPostings(ds, i, ps + [x])
      == CreditPostings(ds, i, ps)[x.doc := Credit(CreditPostings(ds, i, ps)[x.doc], i, x.val)]
  {
    assert (ps + [x])[..|ps|] == ps;
    assert forall j :: 0 <= j < |ps| ==> ps[j] == (ps + [x])[j];
  }

  lemma CreditWordsStep(ds: seq<Doc>, ws: seq<Word>, i: nat)
    requires i < |ws| && InRange(ws, |ds|)
    ensures InRange(ws[..i], |ds|) && InRange(ws[..i + 1], |ds|) && PostingsIn(ws[i].docs, |ds|)
    ensures CreditWords(ds, ws[..i + 1]) == CreditPostings(CreditWords(ds, ws[..i]), i, ws[i].docs)
  {
    assert ws[..i + 1][..i] == ws[..i];
  }

  /** The postings of one word: each count is weighted against its document
      as it stands (only its unchanged token count matters) and credited
      to that document. */
  method WeighWord(w: Word, i: nat, ds: seq<Doc>, cur: seq<Doc>, wt: Weight, n: nat, ops: FloatOps)
    returns (nw: Word, r: seq<Doc>)
    requires PostingsIn(w.docs, |ds|) && |cur| == |ds|
    requires forall d :: 0 <= d < |ds| ==> cur[d].ntokens == ds[d].ntokens
    ensures nw == Weighed(w, ds, wt, n, ops)
    ensures r == CreditPostings(cur, i, nw.docs)
    ensures |r| == |ds| && forall d :: 0 <= d < |ds| ==> r[d].ntokens == ds[d].ntokens
  {
    var w' := w.(ndocs := |w.docs|);
    ghost var target := Weighed(w, ds, wt, n, ops).docs;
    var nps: seq<WordDoc> := [];
    r := cur;
    for j := 0 to |w.docs|
      invariant nps == target[..j]
      invariant PostingsIn(nps, |ds|)
      invariant r == CreditPostings(cur, i, nps)
      invariant |r| == |ds| && forall d :: 0 <= d < |ds| ==> r[d].ntokens == ds[d].ntokens
    {
      var p := w.docs[j];
      var v := WeightVal(p.count as real, w', r[p.doc], wt, n, ops);
      WeightValReadsTokensOnly(p.count as real, w', r[p.doc], ds[p.doc], wt, n, ops);
      WeighedPrefix(w, ds, wt, n, ops, j);
      CreditPostingsSnoc(cur, i, nps, p.(val := v));
      nps := nps + [p.(val := v)];
      r := r[p.doc := Credit(r[p.doc], i, v)];
    }
    assert target[..|w.docs|] == target;
    nw := w'.(docs := nps);
  }

  lemma WeighedPrefix(w: Word, ds: seq<Doc>, wt: Weight, n: nat, ops: FloatOps, j: nat)
    requires PostingsIn(w.docs, |ds|) && j < |w.docs|
    ensures var t, p := Weighed(w, ds, wt, n, ops).docs, w.docs[j];
      t[..j + 1] == t[..j] + [p.(val := WeightVal(p.count as real, w.(ndocs := |w.docs|), ds[p.doc], wt, n, ops))]
  {
    var t := Weighed(w, ds, wt, n, ops).docs;
    assert t[..j + 1] == t[..j] + [t[j]];
  }

  /** The weighting pass: every word's postings are weighted and credited,
      word by word, to documents whose statistics were just reset. */
  method WeighWords(ws: seq<Word>, ds: seq<Doc>, wt: Weight, n: nat, ops: FloatOps)
    returns (nws: seq<Word>, r: seq<Doc>)
    requires InRange(ws, |ds|)
    ensures nws == Weighted(ws, ds, wt, n, ops)
    ensures r == CreditWords(ds, nws)
  {
    ghost var target := Weighted(ws, ds, wt, n, ops);
    WeightedKeepsPostings(ws, ds, wt, n, ops);
    assert InRange(target, |ds|);
    nws := ws;
    r := ds;
    assert target[..0] == [];
    for i := 0 to |ws|
      invariant |nws| == |ws|
      invariant forall k :: 0 <= k < i ==> nws[k] == target[k]
      invariant forall k :: i <= k < |ws| ==> nws[k] == ws[k]
      invariant InRange(target[..i], |ds|)
      invariant r == CreditWords(ds, target[..i])
      invariant |r| == |ds| && forall d :: 0 <= d < |ds| ==> r[d].ntokens == ds[d].ntokens
    {
      assert PostingsIn(ws[i].docs, |ds|);
      var w, r' := WeighWord(ws[i], i, ds, r, wt, n, ops);
      CreditWordsStep(ds, target, i);
      nws := nws[i := w];
      r := r';
    }
    assert nws == target;
    assert target[..|ws|] == target;
  }

  /** The normalisation pass, against the documents' final norms. */
  method NormWords(ws: seq<Word>, ds: seq<Doc>, norm: Norm, ops: FloatOps) returns (r: seq<Word>)
    requires InRange(ws, |ds|)
    ensures r == NormedAll(ws, ds, norm, ops)
  {
    r := ws;
    for i := 0 to |ws|
      invariant |r| == |ws|
      invariant forall k :: 0 <= k < i ==> r[k] == Normed(ws[k], ds, norm, ops)
      invariant forall k :: i <= k < |ws| ==> r[k] == ws[k]
    {
      var ps := r[i].docs;
      assert PostingsIn(ps, |ds|);
      var j := 0;
      while j < |ps|
        invariant 0 <= j <= |ps| && |ps| == |ws[i].docs|
        invariant forall m :: 0 <= m < j ==> ps[m] == NormPostings(ws[i].docs, ds, norm, ops)[m]
        invariant forall m :: j <= m < |ps| ==> ps[m] == ws[i].docs[m]
      {
        ps := ps[j := ps[j].(val := NormVal(ps[j].val, ds[ps[j].doc], norm, ops))];
        j := j + 1;
      }
      assert ps == NormPostings(ws[i].docs, ds, norm, ops);
      r := r[i := r[i].(docs := ps)];
    }
  }
}
