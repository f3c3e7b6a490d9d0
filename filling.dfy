/** What the two `fill` overloads compute, as functions of the state they
    start from, and the invariants they keep. */
module Filling {
  import opened Entries
  import opened PostingList

  /** std::vector::resize: keep the first `n` elements, pad with `pad`. */
  function Resize<T>(s: seq<T>, n: nat, pad: T): (r: seq<T>)
    ensures |r| == n
    ensures forall i :: 0 <= i < n ==> r[i] == if i < |s| then s[i] else pad
  {
    if n <= |s| then s[..n] else s + seq(n - |s|, _ => pad)
  }

  /** One accepted occurrence of a word in document `d`: `wf` goes up, the
      posting of `d` is bumped, and `ndocs` goes up exactly when the posting
      had to be inserted. */
  function AddToWord(w: Word, d: nat): Word
  {
    Word(if d in Keys(w.docs, DocOf) then w.ndocs else w.ndocs + 1, w.wf + 1, Bump(w.docs, d))
  }

  /** The words with one more occurrence of word `i` in document `d`. */
  function Record(ws: seq<Word>, i: nat, d: nat): (r: seq<Word>)
    requires i < |ws|
    ensures |r| == |ws|
  {
    ws[i := AddToWord(ws[i], d)]
  }

  /** A well-kept word: postings strictly ascending by document, `ndocs` their
      number and `wf` the sum of their counts. */
  predicate WordOk(w: Word)
  {
    SortedBy(w.docs, DocOf) && w.ndocs == |w.docs| && w.wf == SumCounts(w.docs)
  }

  predicate WordsOk(ws: seq<Word>)
  {
    forall i {:trigger WordOk(ws[i])} :: 0 <= i < |ws| ==> WordOk(ws[i])
  }

  /** Every posting names a document below `n`. */
  predicate InRange(ws: seq<Word>, n: nat)
  {
    forall i, j :: 0 <= i < |ws| && 0 <= j < |ws[i].docs| ==> ws[i].docs[j].doc < n
  }

  lemma AddToWordOk(w: Word, d: nat)
    requires WordOk(w)
    ensures WordOk(AddToWord(w, d))
    ensures Keys(AddToWord(w, d).docs, DocOf) == Keys(w.docs, DocOf) + {d}
  {
    BumpSorted(w.docs, d);
    BumpSize(w.docs, d);
    BumpSum(w.docs, d);
  }

  /** Recording an occurrence in a document below `n` keeps the words well
      kept and in range; `r` is the words after the update. */
  lemma AddToWordInRange(ws: seq<Word>, i: nat, d: nat, n: nat)
    requires i < |ws| && d < n
    requires WordsOk(ws) && InRange(ws, n)
    ensures WordsOk(Record(ws, i, d)) && InRange(Record(ws, i, d), n)
  {
    var w := AddToWord(ws[i], d);
    AddToWordOk(ws[i], d);
    forall j | 0 <= j < |w.docs| ensures w.docs[j].doc < n {
      assert w.docs[j].doc in Keys(w.docs, DocOf);
      if w.docs[j].doc != d {
        var m :| 0 <= m < |ws[i].docs| && DocOf(ws[i].docs[m]) == w.docs[j].doc;
      }
    }
  }

  /** The array form of `fill` accepts a token when both of its one-based
      labels name an allocated word and document. */
  predicate Accepted(wl: nat, dl: nat, nwords: nat, ndocs: nat)
  {
    0 < wl <= nwords && 0 < dl <= ndocs
  }

  /** The words after the array form of `fill` has consumed the tokens,
      from words already resized; `ndocs` is the document count it was
      given. */
  function FilledWords(ws: seq<Word>, ndocs: nat, wlabel: seq<nat>, dlabel: seq<nat>): (r: seq<Word>)
    requires |wlabel| == |dlabel|
    ensures |r| == |ws|
  {
    if |wlabel| == 0 then ws
    else
      var n := |wlabel| - 1;
      var prev := FilledWords(ws, ndocs, wlabel[..n], dlabel[..n]);
      var w, d := wlabel[n], dlabel[n];
      if Accepted(w, d, |ws|, ndocs) then Record(prev, w - 1, d - 1) else prev
  }

  /** The documents after the array form of `fill` has consumed the tokens,
      from documents already resized; `nwords` is the word count it was
      given. */
  function FilledDocs(ds: seq<Doc>, nwords: nat, wlabel: seq<nat>, dlabel: seq<nat>): (r: seq<Doc>)
    requires |wlabel| == |dlabel|
    ensures |r| == |ds|
  {
    if |wlabel| == 0 then ds
    else
      var n := |wlabel| - 1;
      var prev := FilledDocs(ds, nwords, wlabel[..n], dlabel[..n]);
      var w, d := wlabel[n], dlabel[n];
      if Accepted(w, d, nwords, |ds|) then AddTokens(prev, d - 1, 1) else prev
  }

  /** Document `d` with `n` more tokens counted. */
  function AddTokens(ds: seq<Doc>, d: nat, n: nat): (r: seq<Doc>)
    requires d < |ds|
    ensures |r| == |ds|
  {
    ds[d := ds[d].(ntokens := ds[d].ntokens + n)]
  }

  /** How many of the tokens are accepted and carry word label `w`. */
  function AcceptedOfWord(wlabel: seq<nat>, dlabel: seq<nat>, nwords: nat, ndocs: nat, w: nat): nat
    requires |wlabel| == |dlabel|
  {
    if |wlabel| == 0 then 0
    else
      var n := |wlabel| - 1;
      AcceptedOfWord(wlabel[..n], dlabel[..n], nwords, ndocs, w)
      + (if Accepted(wlabel[n], dlabel[n], nwords, ndocs) && wlabel[n] == w then 1 else 0)
  }

  /** How many of the tokens are accepted and carry document label `d`. */
  function AcceptedOfDoc(wlabel: seq<nat>, dlabel: seq<nat>, nwords: nat, ndocs: nat, d: nat): nat
    requires |wlabel| == |dlabel|
  {
    if |wlabel| == 0 then 0
    else
      var n := |wlabel| - 1;
      AcceptedOfDoc(wlabel[..n], dlabel[..n], nwords, ndocs, d)
      + (if Accepted(wlabel[n], dlabel[n], nwords, ndocs) && dlabel[n] == d then 1 else 0)
  }

  /** The array form of `fill` keeps every posting list sorted and unique,
      every `ndocs` equal to the number of postings, every `wf` equal to the
      summed counts, and every posting inside the document range. */
  lemma {:induction false} FilledKeepsWords(ws: seq<Word>, ndocs: nat, wlabel: seq<nat>, dlabel: seq<nat>)
    requires |wlabel| == |dlabel|
    requires WordsOk(ws) && InRange(ws, ndocs)
    ensures WordsOk(FilledWords(ws, ndocs, wlabel, dlabel))
    ensures InRange(FilledWords(ws, ndocs, wlabel, dlabel), ndocs)
  {
    if |wlabel| > 0 {
      var n := |wlabel| - 1;
      FilledKeepsWords(ws, ndocs, wlabel[..n], dlabel[..n]);
      if Accepted(wlabel[n], dlabel[n], |ws|, ndocs) {
        AddToWordInRange(FilledWords(ws, ndocs, wlabel[..n], dlabel[..n]), wlabel[n] - 1, dlabel[n] - 1, ndocs);
      }
    }
  }

  /** Each accepted token adds one to its word's `wf`; rejected tokens
      change nothing. */
  lemma {:induction false} FilledWordFrequencies(ws: seq<Word>, ndocs: nat, wlabel: seq<nat>, dlabel: seq<nat>)
    requires |wlabel| == |dlabel|
    ensures forall i :: 0 <= i < |ws| ==>
      FilledWords(ws, ndocs, wlabel, dlabel)[i].wf == ws[i].wf + AcceptedOfWord(wlabel, dlabel, |ws|, ndocs, i + 1)
  {
    if |wlabel| > 0 {
      var n := |wlabel| - 1;
      FilledWordFrequencies(ws, ndocs, wlabel[..n], dlabel[..n]);
    }
  }

  /** Each accepted token adds one to its document's `ntokens`; rejected
      tokens change nothing. */
  lemma {:induction false} FilledDocTokens(ds: seq<Doc>, nwords: nat, wlabel: seq<nat>, dlabel: seq<nat>)
    requires |wlabel| == |dlabel|
    ensures forall i :: 0 <= i < |ds| ==>
      FilledDocs(ds, nwords, wlabel, dlabel)[i].ntokens == ds[i].ntokens + AcceptedOfDoc(wlabel, dlabel, nwords, |ds|, i + 1)
  {
    if |wlabel| > 0 {
      var n := |wlabel| - 1;
      FilledDocTokens(ds, nwords, wlabel[..n], dlabel[..n]);
    }
  }

  /** A token whose labels are not both accepted leaves the index as it was. */
  lemma RejectedTokenChangesNothing(ws: seq<Word>, ds: seq<Doc>, wlabel: seq<nat>, dlabel: seq<nat>, w: nat, d: nat)
    requires |wlabel| == |dlabel|
    requires !Accepted(w, d, |ws|, |ds|)
    ensures FilledWords(ws, |ds|, wlabel + [w], dlabel + [d]) == FilledWords(ws, |ds|, wlabel, dlabel)
    ensures FilledDocs(ds, |ws|, wlabel + [w], dlabel + [d]) == FilledDocs(ds, |ws|, wlabel, dlabel)
  {
    assert (wlabel + [w])[..|wlabel|] == wlabel;
    assert (dlabel + [d])[..|dlabel|] == dlabel;
  }

  // The document-vector form -----------------------------------------

  /** The words after the tokens of one document `dl` have been added: a
      token is skipped when its label is 0 or above the word count. */
  function AddDocTokens(ws: seq<Word>, toks: seq<nat>, dl: nat): (r: seq<Word>)
    ensures |r| == |ws|
  {
    if |toks| == 0 then ws
    else
      var n := |toks| - 1;
      var prev := AddDocTokens(ws, toks[..n], dl);
      var t := toks[n];
      if t > |ws| || t == 0 then prev
      else Record(prev, t - 1, dl)
  }

  /** The words after the document-vector form of `fill`, from words
      already resized; document `d` of the input gets id `d + idshift`. */
  function VecWords(ws: seq<Word>, data: seq<seq<nat>>, idshift: nat): (r: seq<Word>)
    ensures |r| == |ws|
  {
    if |data| == 0 then ws
    else
      var n := |data| - 1;
      AddDocTokens(VecWords(ws, data[..n], idshift), data[n], n + idshift)
  }

  /** The documents after the document-vector form of `fill`, from documents
      already resized: each gets its whole token count added to `ntokens`. */
  function VecDocs(ds: seq<Doc>, data: seq<seq<nat>>, idshift: nat): (r: seq<Doc>)
    requires |data| == 0 || idshift + |data| <= |ds|
    ensures |r| == |ds|
  {
    if |data| == 0 then ds
    else
      var n := |data| - 1;
      var prev := VecDocs(ds, data[..n], idshift);
      AddTokens(prev, n + idshift, |data[n]|)
  }

  lemma {:induction false} AddDocTokensKeepsWords(ws: seq<Word>, toks: seq<nat>, dl: nat, ndocs: nat)
    requires dl < ndocs
    requires WordsOk(ws) && InRange(ws, ndocs)
    ensures WordsOk(AddDocTokens(ws, toks, dl)) && InRange(AddDocTokens(ws, toks, dl), ndocs)
  {
    if |toks| > 0 {
      var n := |toks| - 1;
      AddDocTokensKeepsWords(ws, toks[..n], dl, ndocs);
      var t := toks[n];
      if !(t > |ws| || t == 0) {
        AddToWordInRange(AddDocTokens(ws, toks[..n], dl), t - 1, dl, ndocs);
      }
    }
  }

  /** The document-vector form of `fill` keeps the same word invariants as
      the array form. */
  lemma {:induction false} VecWordsKeepsWords(ws: seq<Word>, data: seq<seq<nat>>, idshift: nat, ndocs: nat)
    requires idshift + |data| <= ndocs
    requires WordsOk(ws) && InRange(ws, ndocs)
    ensures WordsOk(VecWords(ws, data, idshift)) && InRange(VecWords(ws, data, idshift), ndocs)
  {
    if |data| > 0 {
      var n := |data| - 1;
      VecWordsKeepsWords(ws, data[..n], idshift, ndocs);
      AddDocTokensKeepsWords(VecWords(ws, data[..n], idshift), data[n], n + idshift, ndocs);
    }
  }

  /** The document-vector form adds each document's full token count,
      skipped tokens included, to `ntokens`, and touches no other document. */
  lemma {:induction false} VecDocsCounts(ds: seq<Doc>, data: seq<seq<nat>>, idshift: nat)
    requires idshift + |data| <= |ds|
    ensures forall d :: 0 <= d < |ds| ==>
      VecDocs(ds, data, idshift)[d].ntokens
      == ds[d].ntokens + (if idshift <= d < idshift + |data| then |data[d - idshift]| else 0)
  {
    if |data| > 0 {
      var n := |data| - 1;
      VecDocsCounts(ds, data[..n], idshift);
    }
  }

  // Resizing and shifted ids --------------------------------------------

  /** Growing or shrinking the word vector keeps every word well kept, as
      the padding is the empty word. */
  lemma ResizeKeepsWords(ws: seq<Word>, n: nat, ndocs: nat)
    requires WordsOk(ws) && InRange(ws, ndocs)
    ensures WordsOk(Resize(ws, n, NewWord)) && InRange(Resize(ws, n, NewWord), ndocs)
  {
    var r := Resize(ws, n, NewWord);
    forall i | 0 <= i < n ensures WordOk(r[i]) && forall j :: 0 <= j < |r[i].docs| ==> r[i].docs[j].doc < ndocs {
      if i >= |ws| {
        assert r[i] == NewWord;
      }
    }
  }

  /** Every posting names a document below `m` once it does below `n <= m`. */
  lemma InRangeGrows(ws: seq<Word>, n: nat, m: nat)
    requires InRange(ws, n) && n <= m
    ensures InRange(ws, m)
  {
  }

  /** The document-vector fill with a nonzero `idshift`, as written, sizes
      the documents by the input alone: for one document holding one token
      of word 1 and a shift of 1, the document it credits (id 1) lies past
      the one document allocated, and the posting it adds names that
      document, outside the index's document range. */
  lemma ShiftedFillEscapesRange()
    ensures var data, idshift := [[1]], 1;
      && 0 + idshift >= |Resize([], |data|, NewDoc)|
      && !InRange(VecWords(Resize([], 1, NewWord), data, idshift), |data|)
  {
    var data: seq<seq<nat>> := [[1]];
    var ws := Resize([], 1, NewWord);
    assert ws == [NewWord];
    assert data[..0] == [];
    assert VecWords(ws, data[..0], 1) == ws;
    var toks := data[0];
    assert toks[..0] == [];
    assert AddDocTokens(ws, toks[..0], 1) == ws;
    var r := VecWords(ws, data, 1);
    assert r == Record(ws, 0, 1);
    assert r[0].docs == [WordDoc(1, 0.0, 1)];
    assert r[0].docs[0].doc >= |data|;
  }

  /** The shifted fill as evidently intended, keeping the documents before
      the shift: the documents are sized to the shift plus the input, and
      the index's document count with them. It keeps the index consistent. */
  lemma {:induction false} ShiftedFillKeepsWords(ws: seq<Word>, ds: seq<Doc>, nwords: nat, data: seq<seq<nat>>, idshift: nat)
    requires WordsOk(ws) && InRange(ws, idshift)
    ensures var nd := idshift + |data|;
      var ws' := VecWords(Resize(ws, nwords, NewWord), data, idshift);
      var ds' := VecDocs(Resize(ds, nd, NewDoc), data, idshift);
      && WordsOk(ws') && InRange(ws', nd) && |ds'| == nd
      && forall d :: 0 <= d < nd ==>
           ds'[d].ntokens == (if d < |ds| then ds[d].ntokens else 0) + (if idshift <= d then |data[d - idshift]| else 0)
  {
    var nd := idshift + |data|;
    InRangeGrows(ws, idshift, nd);
    ResizeKeepsWords(ws, nwords, nd);
    VecWordsKeepsWords(Resize(ws, nwords, NewWord), data, idshift, nd);
    var r := Resize(ds, nd, NewDoc);
    VecDocsCounts(r, data, idshift);
    forall d | 0 <= d < nd ensures r[d].ntokens == if d < |ds| then ds[d].ntokens else 0 {
    }
  }
}
