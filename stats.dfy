/** What `computeStats` computes: the weighted posting values, each
    document's norms and word list, and the normalised values. */
module Stats {
  import opened Entries
  import opened PostingList
  import opened Kernels
  import opened Filling

  /** A document whose statistics have been cleared; its token count stays. */
  function Reset(d: Doc): (r: Doc)
    ensures r.ntokens == d.ntokens && r.words == [] && r.nwords == 0
    ensures r.norml0 == 0.0 && r.norml1 == 0.0 && r.norml2 == 0.0
  {
    d.(norml0 := 0.0, norml1 := 0.0, norml2 := 0.0, nwords := 0, words := [])
  }

  function ResetAll(ds: seq<Doc>): (r: seq<Doc>)
    ensures |r| == |ds|
  {
    seq(|ds|, i requires 0 <= i < |ds| => Reset(ds[i]))
  }

  /** Document `d` meets word `i` with weighted value `v`. */
  function Credit(d: Doc, i: nat, v: real): Doc
  {
    d.(norml0 := d.norml0 + 1.0, norml1 := d.norml1 + v, norml2 := d.norml2 + v * v,
       words := d.words + [i], nwords := d.nwords + 1)
  }

  predicate PostingsIn(ps: seq<WordDoc>, n: nat)
  {
    forall j :: 0 <= j < |ps| ==> ps[j].doc < n
  }

  /** A word after the weighting pass: `ndocs` is reset to the number of
      postings, and each posting's value is its weighted count. */
  function Weighed(w: Word, ds: seq<Doc>, wt: Weight, n: nat, ops: FloatOps): Word
    requires PostingsIn(w.docs, |ds|)
  {
    var w' := w.(ndocs := |w.docs|);
    w'.(docs := seq(|w.docs|, j requires 0 <= j < |w.docs| =>
      w.docs[j].(val := WeightVal(w.docs[j].count as real, w', ds[w.docs[j].doc], wt, n, ops))))
  }

  function Weighted(ws: seq<Word>, ds: seq<Doc>, wt: Weight, n: nat, ops: FloatOps): (r: seq<Word>)
    requires InRange(ws, |ds|)
    ensures |r| == |ws|
  {
    seq(|ws|, i requires 0 <= i < |ws| => Weighed(ws[i], ds, wt, n, ops))
  }

  /** Postings after the normalisation pass, against the documents `ds`. */
  function NormPostings(ps: seq<WordDoc>, ds: seq<Doc>, norm: Norm, ops: FloatOps): (r: seq<WordDoc>)
    requires PostingsIn(ps, |ds|)
    ensures |r| == |ps|
  {
    seq(|ps|, j requires 0 <= j < |ps| => ps[j].(val := NormVal(ps[j].val, ds[ps[j].doc], norm, ops)))
  }

  /** A word after the normalisation pass. */
  function Normed(w: Word, ds: seq<Doc>, norm: Norm, ops: FloatOps): Word
    requires PostingsIn(w.docs, |ds|)
  {
    w.(docs := NormPostings(w.docs, ds, norm, ops))
  }

  function NormedAll(ws: seq<Word>, ds: seq<Doc>, norm: Norm, ops: FloatOps): (r: seq<Word>)
    requires InRange(ws, |ds|)
    ensures |r| == |ws|
  {
    seq(|ws|, i requires 0 <= i < |ws| => Normed(ws[i], ds, norm, ops))
  }

  /** The documents after word `i`'s postings have been credited. */
  function CreditPostings(ds: seq<Doc>, i: nat, ps: seq<WordDoc>): (r: seq<Doc>)
    requires PostingsIn(ps, |ds|)
    ensures |r| == |ds|
  {
    if |ps| == 0 then ds
    else
      var n := |ps| - 1;
      var prev := CreditPostings(ds, i, ps[..n]);
      prev[ps[n].doc := Credit(prev[ps[n].doc], i, ps[n].val)]
  }

  /** The documents after every word's postings have been credited, in word
      order. */
  function CreditWords(ds: seq<Doc>, ws: seq<Word>): (r: seq<Doc>)
    requires InRange(ws, |ds|)
    ensures |r| == |ds|
  {
    if |ws| == 0 then ds
    else
      var n := |ws| - 1;
      CreditPostings(CreditWords(ds, ws[..n]), n, ws[n].docs)
  }

  /** The documents after `computeStats`; `n` is the index's document count. */
  function StatsDocs(ws: seq<Word>, ds: seq<Doc>, wt: Weight, n: nat, ops: FloatOps): (r: seq<Doc>)
    requires InRange(ws, |ds|)
    ensures |r| == |ds|
  {
    CreditWords(ResetAll(ds), Weighted(ws, ds, wt, n, ops))
  }

  /** The words after `computeStats`. */
  function StatsWords(ws: seq<Word>, ds: seq<Doc>, wt: Weight, norm: Norm, n: nat, ops: FloatOps): (r: seq<Word>)
    requires InRange(ws, |ds|)
    ensures |r| == |ws|
  {
    NormedAll(Weighted(ws, ds, wt, n, ops), StatsDocs(ws, ds, wt, n, ops), norm, ops)
  }

  // The column view: one document against every word ------------------

  /** The value the posting list holds for document `d`, 0 when none. */
  function ValAt(ps: seq<WordDoc>, d: nat): real
  {
    if |ps| == 0 then 0.0
    else if ps[|ps| - 1].doc == d then ps[|ps| - 1].val
    else ValAt(ps[..|ps| - 1], d)
  }

  /** The words whose postings name document `d`, in word order. */
  function Naming(ws: seq<Word>, d: nat): seq<nat>
  {
    if |ws| == 0 then []
    else
      var n := |ws| - 1;
      Naming(ws[..n], d) + (if d in Keys(ws[n].docs, DocOf) then [n] else [])
  }

  /** The values those words hold for document `d`, in the same order. */
  function RowVals(ws: seq<Word>, d: nat): (r: seq<real>)
    ensures |r| == |Naming(ws, d)|
  {
    if |ws| == 0 then []
    else
      var n := |ws| - 1;
      RowVals(ws[..n], d) + (if d in Keys(ws[n].docs, DocOf) then [ValAt(ws[n].docs, d)] else [])
  }

  function Sum(vs: seq<real>): real
  {
    if |vs| == 0 then 0.0 else Sum(vs[..|vs| - 1]) + vs[|vs| - 1]
  }

  function SumSq(vs: seq<real>): real
  {
    if |vs| == 0 then 0.0 else SumSq(vs[..|vs| - 1]) + vs[|vs| - 1] * vs[|vs| - 1]
  }

  /** Document `d0` as the column of the words gives it: it names the words
      that name it, counts them, and sums their values and squares. */
  function ColumnDoc(d0: Doc, ws: seq<Word>, d: nat): Doc
  {
    var row := RowVals(ws, d);
    Doc(|row| as real, Sum(row), SumSq(row), d0.ntokens, |row|, Naming(ws, d))
  }

  /** Crediting a document with a row, one value after another. */
  function CreditRow(doc: Doc, ids: seq<nat>, vs: seq<real>): Doc
    requires |ids| == |vs|
  {
    if |ids| == 0 then doc
    else
      var n := |ids| - 1;
      Credit(CreditRow(doc, ids[..n], vs[..n]), ids[n], vs[n])
  }

  lemma KeysSnoc<T>(s: seq<T>, x: T, key: T -> nat)
    ensures Keys(s + [x], key) == Keys(s, key) + {key(x)}
  {
    var r := s + [x];
    forall y | y in Keys(s, key) ensures y in Keys(r, key) {
      var i :| 0 <= i < |s| && key(s[i]) == y;
      assert key(r[i]) == y;
    }
    assert key(r[|s|]) == key(x);
  }

  /** Crediting one word's (sorted, hence unique) postings credits every
      document it names exactly once, with the value it holds for it, and
      leaves every other document alone. */
  lemma {:induction false} CreditPostingsColumn(ds: seq<Doc>, i: nat, ps: seq<WordDoc>)
    requires SortedBy(ps, DocOf) && PostingsIn(ps, |ds|)
    ensures forall d :: 0 <= d < |ds| ==>
      CreditPostings(ds, i, ps)[d] == if d in Keys(ps, DocOf) then Credit(ds[d], i, ValAt(ps, d)) else ds[d]
  {
    if |ps| > 0 {
      var n := |ps| - 1;
      var pre := ps[..n];
      assert SortedBy(pre, DocOf);
      CreditPostingsColumn(ds, i, pre);
      assert ps == pre + [ps[n]];
      KeysSnoc(pre, ps[n], DocOf);
      assert forall j :: 0 <= j < |pre| ==> DocOf(pre[j]) < DocOf(ps[n]);
      assert ps[n].doc !in Keys(pre, DocOf);
    }
  }

  lemma {:induction false} CreditWordsColumn(ds: seq<Doc>, ws: seq<Word>)
    requires InRange(ws, |ds|)
    requires forall i :: 0 <= i < |ws| ==> SortedBy(ws[i].docs, DocOf)
    ensures forall d :: 0 <= d < |ds| ==>
      CreditWords(ds, ws)[d] == CreditRow(ds[d], Naming(ws, d), RowVals(ws, d))
  {
    if |ws| > 0 {
      var n := |ws| - 1;
      CreditWordsColumn(ds, ws[..n]);
      assert PostingsIn(ws[n].docs, |ds|);
      CreditPostingsColumn(CreditWords(ds, ws[..n]), n, ws[n].docs);
      forall d | 0 <= d < |ds|
        ensures CreditWords(ds, ws)[d] == CreditRow(ds[d], Naming(ws, d), RowVals(ws, d))
      {
        var ids, vs := Naming(ws[..n], d), RowVals(ws[..n], d);
        var prev := CreditWords(ds, ws[..n]);
        assert CreditWords(ds, ws) == CreditPostings(prev, n, ws[n].docs);
        assert prev[d] == CreditRow(ds[d], ids, vs);
        if d in Keys(ws[n].docs, DocOf) {
          var v := ValAt(ws[n].docs, d);
          assert Naming(ws, d) == ids + [n];
          assert RowVals(ws, d) == vs + [v];
          assert (ids + [n])[..|ids|] == ids;
          assert (vs + [v])[..|vs|] == vs;
          assert CreditRow(ds[d], ids + [n], vs + [v]) == Credit(CreditRow(ds[d], ids, vs), n, v);
        } else {
          assert Naming(ws, d) == ids;
          assert RowVals(ws, d) == vs;
        }
      }
    }
  }

  lemma {:induction false} CreditRowFromReset(d0: Doc, ids: seq<nat>, vs: seq<real>)
    requires |ids| == |vs|
    ensures CreditRow(Reset(d0), ids, vs) == Doc(|vs| as real, Sum(vs), SumSq(vs), d0.ntokens, |vs|, ids)
  {
    if |ids| > 0 {
      var n := |ids| - 1;
      var pre := CreditRow(Reset(d0), ids[..n], vs[..n]);
      CreditRowFromReset(d0, ids[..n], vs[..n]);
      CreditRowLast(Reset(d0), ids, vs);
      SumsLast(vs);
      CreditLast(pre, d0.ntokens, ids, vs);
    }
  }

  /** Crediting the last value of a row to the document credited with the
      rest of it gives the document credited with the whole row. */
  lemma CreditLast(pre: Doc, t: nat, ids: seq<nat>, vs: seq<real>)
    requires |ids| == |vs| > 0
    requires var n := |vs| - 1; pre == Doc(n as real, Sum(vs[..n]), SumSq(vs[..n]), t, n, ids[..n])
    requires var n := |vs| - 1; Sum(vs) == Sum(vs[..n]) + vs[n] && SumSq(vs) == SumSq(vs[..n]) + vs[n] * vs[n]
    ensures Credit(pre, ids[|ids| - 1], vs[|vs| - 1]) == Doc(|vs| as real, Sum(vs), SumSq(vs), t, |vs|, ids)
  {
    assert ids[..|ids| - 1] + [ids[|ids| - 1]] == ids;
  }

  /** The last value of a row is credited last. */
  lemma CreditRowLast(doc: Doc, ids: seq<nat>, vs: seq<real>)
    requires |ids| == |vs| > 0
    ensures var n := |vs| - 1;
      CreditRow(doc, ids, vs) == Credit(CreditRow(doc, ids[..n], vs[..n]), ids[n], vs[n])
  {
  }

  /** The last value of a row ends both of its sums. */
  lemma SumsLast(vs: seq<real>)
    requires |vs| > 0
    ensures var n := |vs| - 1;
      Sum(vs) == Sum(vs[..n]) + vs[n] && SumSq(vs) == SumSq(vs[..n]) + vs[n] * vs[n]
  {
  }

  /** After `computeStats`, each document's word list is exactly the words
      whose postings name it, in ascending order; `nwords` and `norml0` are
      their number, `norml1` and `norml2` the sum and the sum of squares of
      the weighted values they hold for it; its token count is unchanged. */
  lemma StatsDocIsColumn(ws: seq<Word>, ds: seq<Doc>, wt: Weight, n: nat, ops: FloatOps, d: nat)
    requires InRange(ws, |ds|) && d < |ds|
    requires forall i :: 0 <= i < |ws| ==> SortedBy(ws[i].docs, DocOf)
    ensures StatsDocs(ws, ds, wt, n, ops)[d] == ColumnDoc(ds[d], Weighted(ws, ds, wt, n, ops), d)
  {
    var wv := Weighted(ws, ds, wt, n, ops);
    WeightedKeepsPostings(ws, ds, wt, n, ops);
    CreditWordsColumn(ResetAll(ds), wv);
    CreditRowFromReset(ds[d], Naming(wv, d), RowVals(wv, d));
  }

  /** Weighting keeps the postings' documents, so their order and range. */
  lemma WeightedKeepsPostings(ws: seq<Word>, ds: seq<Doc>, wt: Weight, n: nat, ops: FloatOps)
    requires InRange(ws, |ds|)
    ensures InRange(Weighted(ws, ds, wt, n, ops), |ds|)
    ensures forall i :: 0 <= i < |ws| && SortedBy(ws[i].docs, DocOf) ==> SortedBy(Weighted(ws, ds, wt, n, ops)[i].docs, DocOf)
  {
    var wv := Weighted(ws, ds, wt, n, ops);
    forall i | 0 <= i < |wv| ensures forall j :: 0 <= j < |wv[i].docs| ==> wv[i].docs[j].doc == ws[i].docs[j].doc {
    }
  }

  /** A word is in the list of document `d` exactly when its postings name
      `d`, and the list is strictly ascending. */
  lemma {:induction false} NamingMembers(ws: seq<Word>, d: nat)
    ensures forall i: nat :: i in Naming(ws, d) <==> i < |ws| && d in Keys(ws[i].docs, DocOf)
    ensures forall a, b :: 0 <= a < b < |Naming(ws, d)| ==> Naming(ws, d)[a] < Naming(ws, d)[b]
  {
    if |ws| > 0 {
      var n := |ws| - 1;
      var pre := ws[..n];
      NamingMembers(pre, d);
      assert forall i :: 0 <= i < n ==> pre[i] == ws[i];
      var np := Naming(pre, d);
      forall a | 0 <= a < |np| ensures np[a] < n {
        assert np[a] in np;
        assert |pre| == n;
      }
      var nw := Naming(ws, d);
      assert nw == np + (if d in Keys(ws[n].docs, DocOf) then [n] else []);
      forall a, b | 0 <= a < b < |nw| ensures nw[a] < nw[b] {
        assert nw[a] == np[a];
      }
    }
  }

  /** `computeStats` changes only the posting values and `ndocs`: each word
      keeps its postings' documents and counts and its `wf`, and its `ndocs`
      becomes the number of its postings. */
  lemma StatsKeepsPostings(ws: seq<Word>, ds: seq<Doc>, wt: Weight, norm: Norm, n: nat, ops: FloatOps)
    requires InRange(ws, |ds|)
    ensures var r := StatsWords(ws, ds, wt, norm, n, ops);
      forall i :: 0 <= i < |ws| ==>
        && r[i].wf == ws[i].wf && r[i].ndocs == |ws[i].docs| && |r[i].docs| == |ws[i].docs|
        && (forall j :: 0 <= j < |ws[i].docs| ==> r[i].docs[j].doc == ws[i].docs[j].doc && r[i].docs[j].count == ws[i].docs[j].count)
  {
  }

  /** What `computeStats` keeps of one word. */
  lemma StatsKeepsPosting(ws: seq<Word>, ds: seq<Doc>, wt: Weight, norm: Norm, n: nat, ops: FloatOps, i: nat)
    requires InRange(ws, |ds|) && i < |ws|
    ensures var r := StatsWords(ws, ds, wt, norm, n, ops)[i];
      && r.wf == ws[i].wf && r.ndocs == |ws[i].docs| && |r.docs| == |ws[i].docs|
      && (forall j :: 0 <= j < |ws[i].docs| ==> r.docs[j].doc == ws[i].docs[j].doc && r.docs[j].count == ws[i].docs[j].count)
  {
    StatsKeepsPostings(ws, ds, wt, norm, n, ops);
  }

  /** A word with the documents and counts of a well-kept word, its `wf`,
      and `ndocs` the number of postings, is well kept. */
  lemma SameShapeOk(a: Word, b: Word)
    requires WordOk(a) && b.wf == a.wf && b.ndocs == |a.docs| && |b.docs| == |a.docs|
    requires forall j :: 0 <= j < |a.docs| ==> b.docs[j].doc == a.docs[j].doc && b.docs[j].count == a.docs[j].count
    ensures WordOk(b)
  {
    SameCountsSameSum(a.docs, b.docs);
    forall x, y | 0 <= x < y < |b.docs| ensures DocOf(b.docs[x]) < DocOf(b.docs[y]) {
      assert DocOf(a.docs[x]) < DocOf(a.docs[y]);
    }
  }

  /** Hence every word is well kept after `computeStats` when it was before. */
  lemma StatsKeepsWords(ws: seq<Word>, ds: seq<Doc>, wt: Weight, norm: Norm, n: nat, ops: FloatOps)
    requires InRange(ws, |ds|) && WordsOk(ws)
    ensures WordsOk(StatsWords(ws, ds, wt, norm, n, ops))
    ensures InRange(StatsWords(ws, ds, wt, norm, n, ops), |ds|)
  {
    var r := StatsWords(ws, ds, wt, norm, n, ops);
    forall i | 0 <= i < |ws| ensures WordOk(r[i]) && PostingsIn(r[i].docs, |ds|) {
      StatsKeepsPosting(ws, ds, wt, norm, n, ops, i);
      SameShapeOk(ws[i], r[i]);
    }
  }

  lemma {:induction false} SameCountsSameSum(a: seq<WordDoc>, b: seq<WordDoc>)
    requires |a| == |b|
    requires forall j :: 0 <= j < |a| ==> a[j].count == b[j].count
    ensures SumCounts(a) == SumCounts(b)
  {
    if |a| > 0 {
      SameCountsSameSum(a[..|a| - 1], b[..|b| - 1]);
    }
  }

  /** The normalisation of a row of values against one document. */
  function NormRow(vs: seq<real>, doc: Doc, norm: Norm, ops: FloatOps): (r: seq<real>)
    ensures |r| == |vs|
  {
    if |vs| == 0 then []
    else NormRow(vs[..|vs| - 1], doc, norm, ops) + [NormVal(vs[|vs| - 1], doc, norm, ops)]
  }

  lemma {:induction false} ValAtNormed(ps: seq<WordDoc>, ds: seq<Doc>, norm: Norm, ops: FloatOps, d: nat)
    requires PostingsIn(ps, |ds|) && d in Keys(ps, DocOf)
    ensures d < |ds|
    ensures ValAt(NormPostings(ps, ds, norm, ops), d) == NormVal(ValAt(ps, d), ds[d], norm, ops)
  {
    var n := |ps| - 1;
    var np := NormPostings(ps, ds, norm, ops);
    assert np[..n] == NormPostings(ps[..n], ds, norm, ops);
    if ps[n].doc != d {
      assert ps == ps[..n] + [ps[n]];
      KeysSnoc(ps[..n], ps[n], DocOf);
      ValAtNormed(ps[..n], ds, norm, ops, d);
    }
  }

  lemma KeysNormed(ps: seq<WordDoc>, ds: seq<Doc>, norm: Norm, ops: FloatOps)
    requires PostingsIn(ps, |ds|)
    ensures Keys(NormPostings(ps, ds, norm, ops), DocOf) == Keys(ps, DocOf)
  {
    var np := NormPostings(ps, ds, norm, ops);
    assert forall j :: 0 <= j < |ps| ==> DocOf(np[j]) == DocOf(ps[j]);
  }

  /** Normalising a word keeps the documents it names and normalises the
      value it holds for each. */
  lemma NormedWordAt(w: Word, ds: seq<Doc>, norm: Norm, ops: FloatOps, d: nat)
    requires PostingsIn(w.docs, |ds|) && d < |ds|
    ensures d in Keys(Normed(w, ds, norm, ops).docs, DocOf) <==> d in Keys(w.docs, DocOf)
    ensures d in Keys(w.docs, DocOf) ==>
      ValAt(Normed(w, ds, norm, ops).docs, d) == NormVal(ValAt(w.docs, d), ds[d], norm, ops)
  {
    KeysNormed(w.docs, ds, norm, ops);
    if d in Keys(w.docs, DocOf) {
      ValAtNormed(w.docs, ds, norm, ops, d);
    }
  }

  lemma NormRowSnoc(vs: seq<real>, v: real, doc: Doc, norm: Norm, ops: FloatOps)
    ensures NormRow(vs + [v], doc, norm, ops) == NormRow(vs, doc, norm, ops) + [NormVal(v, doc, norm, ops)]
  {
    assert (vs + [v])[..|vs|] == vs;
  }

  /** The row of a document over some words: the row over all but the last
      word, then the last word's value if it names the document. */
  lemma RowValsLast(ws: seq<Word>, d: nat)
    requires |ws| > 0
    ensures var n := |ws| - 1;
      && Naming(ws, d) == Naming(ws[..n], d) + (if d in Keys(ws[n].docs, DocOf) then [n] else [])
      && RowVals(ws, d) == RowVals(ws[..n], d) + (if d in Keys(ws[n].docs, DocOf) then [ValAt(ws[n].docs, d)] else [])
  {
  }

  lemma {:induction false} RowValsNormed(ws: seq<Word>, ds: seq<Doc>, norm: Norm, ops: FloatOps, d: nat)
    requires InRange(ws, |ds|) && d < |ds|
    ensures Naming(NormedAll(ws, ds, norm, ops), d) == Naming(ws, d)
    ensures RowVals(NormedAll(ws, ds, norm, ops), d) == NormRow(RowVals(ws, d), ds[d], norm, ops)
  {
    if |ws| > 0 {
      var n := |ws| - 1;
      var nw := NormedAll(ws, ds, norm, ops);
      assert nw[..n] == NormedAll(ws[..n], ds, norm, ops);
      RowValsNormed(ws[..n], ds, norm, ops, d);
      assert PostingsIn(ws[n].docs, |ds|);
      assert nw[n] == Normed(ws[n], ds, norm, ops);
      NormedWordAt(ws[n], ds, norm, ops, d);
      RowValsLast(ws, d);
      RowValsLast(nw, d);
      if d in Keys(ws[n].docs, DocOf) {
        NormRowSnoc(RowVals(ws[..n], d), ValAt(ws[n].docs, d), ds[d], norm, ops);
      } else {
        assert d !in Keys(nw[n].docs, DocOf);
        assert RowVals(ws, d) == RowVals(ws[..n], d);
        assert RowVals(nw, d) == RowVals(nw[..n], d);
      }
    }
  }

  /** The values `row` add up to `total` once multiplied by `k`. */
  predicate SumsTo(row: seq<real>, k: real, total: real)
  {
    Sum(row) * k == total
  }

  lemma {:induction false} SumScaled(r: seq<real>, vs: seq<real>, k: real)
    requires |r| == |vs|
    requires forall i :: 0 <= i < |r| ==> r[i] * k == vs[i]
    ensures SumsTo(r, k, Sum(vs))
  {
    if |r| > 0 {
      var n := |r| - 1;
      SumScaled(r[..n], vs[..n], k);
      MulDistributes(Sum(r[..n]), r[n], k);
    }
  }

  lemma {:induction false} NormRowAt(vs: seq<real>, doc: Doc, norm: Norm, ops: FloatOps)
    ensures forall i :: 0 <= i < |vs| ==> NormRow(vs, doc, norm, ops)[i] == NormVal(vs[i], doc, norm, ops)
  {
    if |vs| > 0 {
      NormRowAt(vs[..|vs| - 1], doc, norm, ops);
    }
  }

  lemma NormRowScales(vs: seq<real>, doc: Doc, norm: Norm, ops: FloatOps)
    requires norm != NormNone && NormDenom(doc, norm, ops) != 0.0
    ensures |NormRow(vs, doc, norm, ops)| == |vs|
    ensures forall i :: 0 <= i < |vs| ==> NormRow(vs, doc, norm, ops)[i] * NormDenom(doc, norm, ops) == vs[i]
  {
    NormRowAt(vs, doc, norm, ops);
  }

  lemma SumNormRow(row: seq<real>, doc: Doc, norm: Norm, ops: FloatOps)
    requires norm != NormNone && NormDenom(doc, norm, ops) != 0.0
    ensures SumsTo(NormRow(row, doc, norm, ops), NormDenom(doc, norm, ops), Sum(row))
  {
    NormRowScales(row, doc, norm, ops);
    SumScaled(NormRow(row, doc, norm, ops), row, NormDenom(doc, norm, ops));
  }

  lemma RowSumFromParts(row: seq<real>, base: seq<real>, doc: Doc, norm: Norm, ops: FloatOps)
    requires row == NormRow(base, doc, norm, ops) && doc.norml1 == Sum(base)
    ensures norm != NormNone && NormDenom(doc, norm, ops) != 0.0 ==> SumsTo(row, NormDenom(doc, norm, ops), doc.norml1)
  {
    if norm != NormNone && NormDenom(doc, norm, ops) != 0.0 {
      SumNormRow(base, doc, norm, ops);
    }
  }

  lemma MulDistributes(x: real, y: real, k: real)
    ensures (x + y) * k == x * k + y * k
  {
  }

  /** After `computeStats` with a norm, each document's normalised values
      add up to norml1 divided by that norm plus EPS: with L1 normalisation
      (and a nonnegative norml1) to norml1 / (EPS + norml1), about 1. */
  lemma NormalisedRowSum(ws: seq<Word>, ds: seq<Doc>, wt: Weight, norm: Norm, n: nat, ops: FloatOps, d: nat)
    requires InRange(ws, |ds|) && d < |ds|
    requires forall i :: 0 <= i < |ws| ==> SortedBy(ws[i].docs, DocOf)
    ensures var doc := StatsDocs(ws, ds, wt, n, ops)[d];
      var row := RowVals(StatsWords(ws, ds, wt, norm, n, ops), d);
      norm != NormNone && NormDenom(doc, norm, ops) != 0.0 ==> SumsTo(row, NormDenom(doc, norm, ops), doc.norml1)
  {
    var wv := Weighted(ws, ds, wt, n, ops);
    var dd := StatsDocs(ws, ds, wt, n, ops);
    var doc := dd[d];
    var base := RowVals(wv, d);
    var row := RowVals(StatsWords(ws, ds, wt, norm, n, ops), d);
    StatsDocIsColumn(ws, ds, wt, n, ops, d);
    assert doc.norml1 == Sum(base);
    WeightedKeepsPostings(ws, ds, wt, n, ops);
    RowValsNormed(wv, dd, norm, ops, d);
    assert row == NormRow(base, doc, norm, ops);
    RowSumFromParts(row, base, doc, norm, ops);
  }


  // Double counting: postings seen from the words and from the documents --

  /** How many members of `s` lie below `n`. */
  function CountBelow(s: set<nat>, n: nat): nat
  {
    if n == 0 then 0 else CountBelow(s, n - 1) + (if n - 1 in s then 1 else 0)
  }

  lemma {:induction false} CountBelowAll(s: set<nat>, n: nat)
    requires forall x :: x in s ==> x < n
    ensures CountBelow(s, n) == |s|
  {
    if n > 0 {
      if n - 1 in s {
        CountBelowAll(s - {n - 1}, n - 1);
        CountBelowSame(s, s - {n - 1}, n - 1);
      } else {
        CountBelowAll(s, n - 1);
      }
    }
  }

  lemma {:induction false} CountBelowSame(s: set<nat>, t: set<nat>, n: nat)
    requires forall x :: x < n ==> (x in s <==> x in t)
    ensures CountBelow(s, n) == CountBelow(t, n)
  {
    if n > 0 {
      CountBelowSame(s, t, n - 1);
    }
  }

  /** A sorted posting list has as many distinct documents as postings. */
  lemma {:induction false} SortedKeysCount<T>(s: seq<T>, key: T -> nat)
    requires SortedBy(s, key)
    ensures |Keys(s, key)| == |s|
  {
    if |s| > 0 {
      var n := |s| - 1;
      assert SortedBy(s[..n], key);
      SortedKeysCount(s[..n], key);
      assert s == s[..n] + [s[n]];
      KeysSnoc(s[..n], s[n], key);
      assert forall j :: 0 <= j < n ==> key(s[..n][j]) < key(s[n]);
      assert key(s[n]) !in Keys(s[..n], key);
    }
  }

  /** The total length of the documents' word lists, documents below `n`. */
  function NamingTotal(ws: seq<Word>, n: nat): nat
  {
    if n == 0 then 0 else NamingTotal(ws, n - 1) + |Naming(ws, n - 1)|
  }

  /** The total number of postings. */
  function PostingTotal(ws: seq<Word>): nat
  {
    if |ws| == 0 then 0 else PostingTotal(ws[..|ws| - 1]) + |ws[|ws| - 1].docs|
  }

  lemma {:induction false} NamingTotalSnoc(ws: seq<Word>, n: nat)
    requires |ws| > 0
    ensures NamingTotal(ws, n) == NamingTotal(ws[..|ws| - 1], n) + CountBelow(Keys(ws[|ws| - 1].docs, DocOf), n)
  {
    if n > 0 {
      NamingTotalSnoc(ws, n - 1);
    }
  }

  /** Every posting is seen once from its word and once from its document. */
  lemma {:induction false} NamingTotalIsPostingTotal(ws: seq<Word>, n: nat)
    requires InRange(ws, n)
    requires forall i :: 0 <= i < |ws| ==> SortedBy(ws[i].docs, DocOf)
    ensures NamingTotal(ws, n) == PostingTotal(ws)
  {
    if |ws| == 0 {
      NamingTotalEmpty(ws, n);
    } else {
      var k := |ws| - 1;
      NamingTotalIsPostingTotal(ws[..k], n);
      NamingTotalSnoc(ws, n);
      var keys := Keys(ws[k].docs, DocOf);
      forall x | x in keys ensures x < n {
        var j :| 0 <= j < |ws[k].docs| && DocOf(ws[k].docs[j]) == x;
      }
      CountBelowAll(keys, n);
      SortedKeysCount(ws[k].docs, DocOf);
    }
  }

  lemma {:induction false} NamingTotalEmpty(ws: seq<Word>, n: nat)
    requires |ws| == 0
    ensures NamingTotal(ws, n) == 0
  {
    if n > 0 {
      NamingTotalEmpty(ws, n - 1);
    }
  }

  /** Sum of `norml0` over the first `n` documents. */
  function SumL0(ds: seq<Doc>, n: nat): real
    requires n <= |ds|
  {
    if n == 0 then 0.0 else SumL0(ds, n - 1) + ds[n - 1].norml0
  }

  /** Sum of `ndocs` over the words. */
  function SumNdocs(ws: seq<Word>): nat
  {
    if |ws| == 0 then 0 else SumNdocs(ws[..|ws| - 1]) + ws[|ws| - 1].ndocs
  }

  lemma {:induction false} SumL0IsNamingTotal(ws: seq<Word>, ds: seq<Doc>, wt: Weight, n: nat, ops: FloatOps, m: nat)
    requires InRange(ws, |ds|) && m <= |ds|
    requires forall i :: 0 <= i < |ws| ==> SortedBy(ws[i].docs, DocOf)
    ensures SumL0(StatsDocs(ws, ds, wt, n, ops), m) == NamingTotal(Weighted(ws, ds, wt, n, ops), m) as real
  {
    if m > 0 {
      SumL0IsNamingTotal(ws, ds, wt, n, ops, m - 1);
      StatsDocIsColumn(ws, ds, wt, n, ops, m - 1);
    }
  }

  lemma {:induction false} SumNdocsCountsPostings(a: seq<Word>, b: seq<Word>)
    requires |a| == |b|
    requires forall i :: 0 <= i < |a| ==> a[i].ndocs == |b[i].docs|
    ensures SumNdocs(a) == PostingTotal(b)
  {
    if |a| > 0 {
      SumNdocsCountsPostings(a[..|a| - 1], b[..|b| - 1]);
    }
  }

  /** After `computeStats`, the documents' `norml0` add up to the words'
      `ndocs`: both count the postings. */
  lemma Norml0TotalIsNdocsTotal(ws: seq<Word>, ds: seq<Doc>, wt: Weight, norm: Norm, n: nat, ops: FloatOps)
    requires InRange(ws, |ds|)
    requires forall i :: 0 <= i < |ws| ==> SortedBy(ws[i].docs, DocOf)
    ensures SumL0(StatsDocs(ws, ds, wt, n, ops), |ds|) == SumNdocs(StatsWords(ws, ds, wt, norm, n, ops)) as real
  {
    WeightedKeepsPostings(ws, ds, wt, n, ops);
    SumL0IsNamingTotal(ws, ds, wt, n, ops, |ds|);
    NamingTotalIsPostingTotal(Weighted(ws, ds, wt, n, ops), |ds|);
    StatsNdocsCountPostings(ws, ds, wt, norm, n, ops);
    SumNdocsCountsPostings(StatsWords(ws, ds, wt, norm, n, ops), Weighted(ws, ds, wt, n, ops));
  }

  /** After `computeStats` each word's `ndocs` is its number of postings. */
  lemma StatsNdocsCountPostings(ws: seq<Word>, ds: seq<Doc>, wt: Weight, norm: Norm, n: nat, ops: FloatOps)
    requires InRange(ws, |ds|)
    ensures var a, b := StatsWords(ws, ds, wt, norm, n, ops), Weighted(ws, ds, wt, n, ops);
      |a| == |b| && forall i :: 0 <= i < |a| ==> a[i].ndocs == |b[i].docs|
  {
  }
}
