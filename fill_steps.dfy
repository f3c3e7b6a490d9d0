/** The loops of the two `fill` overloads, each proved to compute the
    function of module Filling that specifies it. */
module FillSteps {
  import opened Entries
  import opened PostingList
  import opened Filling

  /** Every posting list is sorted, so lower_bound may search it. */
  predicate AllSorted(ws: seq<Word>)
  {
    forall k :: 0 <= k < |ws| ==> SortedBy(ws[k].docs, DocOf)
  }

  /** Resizing keeps the kept lists sorted; the padding has no postings. */
  lemma ResizeSorted(ws: seq<Word>, n: nat)
    requires forall k :: 0 <= k < |ws| && k < n ==> SortedBy(ws[k].docs, DocOf)
    ensures AllSorted(Resize(ws, n, NewWord))
  {
    var r := Resize(ws, n, NewWord);
    forall k | 0 <= k < n ensures SortedBy(r[k].docs, DocOf) {
      if k >= |ws| {
        assert r[k] == NewWord;
      }
    }
  }

  /** AddToWord is the lower_bound insertion of a zero-count posting when
      `d` is absent, followed by the count update, and keeps the list
      sorted. */
  lemma AddToWordIsInsert(w: Word, d: nat)
    requires SortedBy(w.docs, DocOf)
    ensures var s := InsertAbsent(w.docs, DocOf, d, WordDoc(0, 0.0, d));
      var i := LowerBoundPos(w.docs, DocOf, d);
      AddToWord(w, d)
      == Word(if Present(w.docs, DocOf, d) then w.ndocs else w.ndocs + 1, w.wf + 1, s[i := s[i].(count := s[i].count + 1)])
    ensures SortedBy(AddToWord(w, d).docs, DocOf)
  {
    BumpIsInsert(w.docs, d);
    PresentIffKey(w.docs, DocOf, d);
    BumpSorted(w.docs, d);
  }

  /** One occurrence of a word in document `d`: lower_bound finds the
      document's place in the posting list, a posting is inserted there (and
      the word's document count goes up) when the document is not yet
      listed, and the posting's count goes up. */
  method AddPosting(w: Word, d: nat) returns (r: Word)
    requires SortedBy(w.docs, DocOf)
    ensures r == AddToWord(w, d)
    ensures SortedBy(r.docs, DocOf)
  {
    var j := LowerBound(w.docs, DocOf, d);
    var ps, nd := w.docs, w.ndocs;
    if j == |ps| || d < ps[j].doc {
      ps := ps[..j] + [WordDoc(0, 0.0, d)] + ps[j..];
      nd := nd + 1;
    }
    ps := ps[j := ps[j].(count := ps[j].count + 1)];
    r := Word(nd, w.wf + 1, ps);
    AddToWordIsInsert(w, d);
  }

  /** The words with one more occurrence of word `i` in document `d`. */
  method AddTo(ws: seq<Word>, i: nat, d: nat) returns (r: seq<Word>)
    requires i < |ws| && AllSorted(ws)
    ensures r == Record(ws, i, d)
    ensures AllSorted(r)
  {
    var w := AddPosting(ws[i], d);
    r := ws[i := w];
  }

  lemma FilledWordsStep(ws: seq<Word>, nd: nat, wlabel: seq<nat>, dlabel: seq<nat>, i: nat)
    requires |wlabel| == |dlabel| && i < |wlabel|
    ensures var prev := FilledWords(ws, nd, wlabel[..i], dlabel[..i]);
      FilledWords(ws, nd, wlabel[..i + 1], dlabel[..i + 1])
      == if Accepted(wlabel[i], dlabel[i], |ws|, nd) then Record(prev, wlabel[i] - 1, dlabel[i] - 1) else prev
  {
    assert wlabel[..i + 1][..i] == wlabel[..i];
    assert dlabel[..i + 1][..i] == dlabel[..i];
  }

  lemma FilledDocsStep(ds: seq<Doc>, nw: nat, wlabel: seq<nat>, dlabel: seq<nat>, i: nat)
    requires |wlabel| == |dlabel| && i < |wlabel|
    ensures var prev := FilledDocs(ds, nw, wlabel[..i], dlabel[..i]);
      FilledDocs(ds, nw, wlabel[..i + 1], dlabel[..i + 1])
      == if Accepted(wlabel[i], dlabel[i], nw, |ds|) then AddTokens(prev, dlabel[i] - 1, 1) else prev
  {
    assert wlabel[..i + 1][..i] == wlabel[..i];
    assert dlabel[..i + 1][..i] == dlabel[..i];
  }

  /** The token loop of the array form of `fill`, on vectors already
      resized: a token is skipped unless both labels are in range. */
  method FillTokens(ws: seq<Word>, ds: seq<Doc>, wlabel: seq<nat>, dlabel: seq<nat>) returns (rw: seq<Word>, rd: seq<Doc>)
    requires |wlabel| == |dlabel| && AllSorted(ws)
    ensures rw == FilledWords(ws, |ds|, wlabel, dlabel)
    ensures rd == FilledDocs(ds, |ws|, wlabel, dlabel)
    ensures AllSorted(rw)
  {
    rw, rd := ws, ds;
    assert wlabel[..0] == [] && dlabel[..0] == [];
    for i := 0 to |wlabel|
      invariant rw == FilledWords(ws, |ds|, wlabel[..i], dlabel[..i])
      invariant rd == FilledDocs(ds, |ws|, wlabel[..i], dlabel[..i])
      invariant AllSorted(rw)
    {
      FilledWordsStep(ws, |ds|, wlabel, dlabel, i);
      FilledDocsStep(ds, |ws|, wlabel, dlabel, i);
      if !(wlabel[i] == 0 || wlabel[i] > |ws| || dlabel[i] == 0 || dlabel[i] > |ds|) {
        var wl, dl := wlabel[i] - 1, dlabel[i] - 1;
        rw := AddTo(rw, wl, dl);
        rd := AddTokens(rd, dl, 1);
      }
    }
    assert wlabel[..|wlabel|] == wlabel && dlabel[..|dlabel|] == dlabel;
  }

  lemma AddDocTokensStep(ws: seq<Word>, toks: seq<nat>, dl: nat, t: nat)
    requires t < |toks|
    ensures var prev := AddDocTokens(ws, toks[..t], dl);
      AddDocTokens(ws, toks[..t + 1], dl)
      == if toks[t] > |ws| || toks[t] == 0 then prev else Record(prev, toks[t] - 1, dl)
  {
    assert toks[..t + 1][..t] == toks[..t];
  }

  /** The tokens of one input document `dl`: each label in range records an
      occurrence of its word in the document. */
  method AddDocument(ws: seq<Word>, toks: seq<nat>, dl: nat) returns (r: seq<Word>)
    requires AllSorted(ws)
    ensures r == AddDocTokens(ws, toks, dl)
    ensures AllSorted(r)
  {
    r := ws;
    assert toks[..0] == [];
    for t := 0 to |toks|
      invariant r == AddDocTokens(ws, toks[..t], dl)
      invariant AllSorted(r)
    {
      AddDocTokensStep(ws, toks, dl, t);
      if !(toks[t] > |ws| || toks[t] == 0) {
        r := AddTo(r, toks[t] - 1, dl);
      }
    }
    assert toks[..|toks|] == toks;
  }

  lemma VecWordsStep(ws: seq<Word>, data: seq<seq<nat>>, idshift: nat, d: nat)
    requires d < |data|
    ensures VecWords(ws, data[..d + 1], idshift) == AddDocTokens(VecWords(ws, data[..d], idshift), data[d], d + idshift)
  {
    assert data[..d + 1][..d] == data[..d];
  }

  lemma VecDocsStep(ds: seq<Doc>, data: seq<seq<nat>>, idshift: nat, d: nat)
    requires d < |data| && idshift + |data| <= |ds|
    ensures var prev := VecDocs(ds, data[..d], idshift);
      VecDocs(ds, data[..d + 1], idshift)
      == AddTokens(prev, d + idshift, |data[d]|)
  {
    assert data[..d + 1][..d] == data[..d];
  }

  /** The document loop of the document-vector form of `fill`, on vectors
      already resized: input document `d` gets id `d + idshift`, its whole
      token count, and one occurrence per token label in range. */
  method FillData(ws: seq<Word>, ds: seq<Doc>, data: seq<seq<nat>>, idshift: nat) returns (rw: seq<Word>, rd: seq<Doc>)
    requires idshift + |data| <= |ds| && AllSorted(ws)
    ensures rw == VecWords(ws, data, idshift)
    ensures rd == VecDocs(ds, data, idshift)
    ensures AllSorted(rw)
  {
    rw, rd := ws, ds;
    assert data[..0] == [];
    for d := 0 to |data|
      invariant rw == VecWords(ws, data[..d], idshift)
      invariant rd == VecDocs(ds, data[..d], idshift)
      invariant AllSorted(rw)
    {
      VecWordsStep(ws, data, idshift, d);
      VecDocsStep(ds, data, idshift, d);
      var dl := d + idshift;
      rd := AddTokens(rd, dl, |data[d]|);
      rw := AddDocument(rw, data[d], dl);
    }
    assert data[..|data|] == data;
  }
}
