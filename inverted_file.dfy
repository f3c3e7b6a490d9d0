/** ivFile: the inverted file object. Its vectors of words and documents,
    their counts and its parameters are updated in place by `fill`,
    `computeStats`, `clear` and `load`; `search` and `save` read them. */
module Index {
  import opened Base
  import opened Entries
  import opened PostingList
  import opened Kernels
  import opened Filling
  import opened Stats
  import opened StatsSteps
  import opened Search
  import opened SearchSteps
  import opened IndexStream
  import opened FillSteps

  class InvertedFile {
    var nwords: nat
    var words: seq<Word>
    var ndocs: nat
    var docs: seq<Doc>
    var params: Params

    /** An empty index with the given parameters. */
    constructor (p: Params)
      ensures nwords == 0 && ndocs == 0 && words == [] && docs == [] && params == p
      ensures Consistent()
    {
      nwords, ndocs := 0, 0;
      words, docs := [], [];
      params := p;
    }

    /** The state `fill` and `computeStats` keep: the counts match the
        vectors, every word is well kept and every posting names an indexed
        document. */
    predicate Consistent()
      reads this
    {
      |words| == nwords && |docs| == ndocs && WordsOk(words) && InRange(words, ndocs)
    }

    function State(): Snapshot
      reads this
    {
      Snapshot(params, ndocs, docs, nwords, words)
    }

    /** Every posting list `fill` may look up with lower_bound is sorted. */
    predicate Searchable(nw: nat)
      reads this
    {
      forall i :: 0 <= i < |words| && i < nw ==> SortedBy(words[i].docs, DocOf)
    }

    /** fill from parallel word and document labels (one-based; a token
        with a label of 0 or past the counts is skipped). */
    method Fill(wlabel: seq<nat>, dlabel: seq<nat>, nw: nat, nd: nat)
      requires |wlabel| == |dlabel|
      requires Searchable(nw)
      modifies this
      ensures words == FilledWords(Resize(old(words), nw, NewWord), nd, wlabel, dlabel)
      ensures docs == FilledDocs(Resize(old(docs), nd, NewDoc), nw, wlabel, dlabel)
      ensures nwords == nw && ndocs == nd && params == old(params)
      ensures old(WordsOk(words) && InRange(words, nd)) ==> Consistent()
    {
      if WordsOk(words) && InRange(words, nd) {
        ResizeKeepsWords(words, nw, nd);
        FilledKeepsWords(Resize(words, nw, NewWord), nd, wlabel, dlabel);
      }
      ResizeSorted(words, nw);
      words := Resize(words, nw, NewWord);
      docs := Resize(docs, nd, NewDoc);
      nwords, ndocs := nw, nd;
      words, docs := FillTokens(words, docs, wlabel, dlabel);
    }

    /** fill from one vector of word labels per document; document `d` of
        the input gets id `d + idshift`. The documents are sized by the input
        alone, so a shift is only in range for an empty input. */
    method FillVectors(data: seq<seq<nat>>, nw: nat, idshift: nat)
      requires idshift == 0 || |data| == 0
      requires Searchable(nw)
      modifies this
      ensures words == VecWords(Resize(old(words), nw, NewWord), data, idshift)
      ensures docs == VecDocs(Resize(old(docs), |data|, NewDoc), data, idshift)
      ensures nwords == nw && ndocs == |data| && params == old(params)
      ensures old(WordsOk(words) && InRange(words, |data|)) ==> Consistent()
    {
      if WordsOk(words) && InRange(words, |data|) {
        ResizeKeepsWords(words, nw, |data|);
        if |data| > 0 {
          VecWordsKeepsWords(Resize(words, nw, NewWord), data, idshift, |data|);
        }
      }
      ResizeSorted(words, nw);
      words := Resize(words, nw, NewWord);
      docs := Resize(docs, |data|, NewDoc);
      nwords, ndocs := nw, |data|;
      if |data| > 0 {
        words, docs := FillData(words, docs, data, idshift);
      }
    }

    /** The document-vector fill with a shift as evidently intended: the
        documents before the shift are kept and the document vector and
        count grow to the shift plus the input. */
    method FillVectorsShifted(data: seq<seq<nat>>, nw: nat, idshift: nat)
      requires Searchable(nw)
      modifies this
      ensures words == VecWords(Resize(old(words), nw, NewWord), data, idshift)
      ensures docs == VecDocs(Resize(old(docs), idshift + |data|, NewDoc), data, idshift)
      ensures nwords == nw && ndocs == idshift + |data| && params == old(params)
      ensures old(WordsOk(words) && InRange(words, idshift)) ==> Consistent()
    {
      if WordsOk(words) && InRange(words, idshift) {
        ShiftedFillKeepsWords(words, docs, nw, data, idshift);
      }
      ResizeSorted(words, nw);
      words := Resize(words, nw, NewWord);
      docs := Resize(docs, idshift + |data|, NewDoc);
      nwords, ndocs := nw, idshift + |data|;
      words, docs := FillData(words, docs, data, idshift);
    }

    /** computeStats with the index's own parameters: reset the documents,
        weight every posting and credit it to its document, then normalise
        every posting against its document's final norms. */
    method ComputeStats(ops: FloatOps)
      requires |words| == nwords && |docs| == ndocs && InRange(words, ndocs)
      modifies this
      ensures words == StatsWords(old(words), old(docs), params.weight, params.norm, ndocs, ops)
      ensures docs == StatsDocs(old(words), old(docs), params.weight, ndocs, ops)
      ensures nwords == old(nwords) && ndocs == old(ndocs) && params == old(params)
      ensures old(WordsOk(words)) ==> Consistent()
    {
      var ds := ResetDocs(docs);
      WeightedReadsTokensOnly(words, ds, docs, params.weight, ndocs, ops);
      var ws, ds2 := WeighWords(words, ds, params.weight, ndocs, ops);
      WeightedKeepsPostings(words, docs, params.weight, ndocs, ops);
      var ws2 := NormWords(ws, ds2, params.norm, ops);
      if WordsOk(words) {
        StatsKeepsWords(words, docs, params.weight, params.norm, ndocs, ops);
      }
      words, docs := ws2, ds2;
    }

    /** The single-query search over this index (a const member: the
        index is not changed). */
    method SearchOne(wlabel: seq<nat>, wt: Weight, norm: Norm, dist: Dist, overlapOnly: bool, k: nat,
                     scorelist: seq<Node>, ops: FloatOps) returns (r: seq<Node>)
      requires |words| > 0 ==> SearchReady(scorelist, nwords, words, docs, dist, overlapOnly)
      ensures Answers(r, scorelist, wlabel, nwords, words, docs, ndocs, wt, norm, dist, overlapOnly, k, ops)
    {
      r := Query(wlabel, nwords, words, docs, ndocs, wt, norm, dist, overlapOnly, k, scorelist, ops);
    }

    /** The batch search with the index's own weight and norm: one score
        list per query, each from the same starting list (every document
        seeded with twice its self-term, or empty with overlapOnly). */
    method Search(data: seq<seq<nat>>, dist: Dist, overlapOnly: bool, k: nat, ops: FloatOps)
      returns (lists: seq<seq<Node>>)
      requires nwords <= |words| && InRange(words, |docs|)
      ensures SearchReady(BatchSeed(docs, dist, params.norm, overlapOnly), nwords, words, docs, dist, overlapOnly)
      ensures |lists| == |data|
      ensures forall d :: 0 <= d < |data| ==>
        Answers(lists[d], BatchSeed(docs, dist, params.norm, overlapOnly), data[d], nwords, words, docs, ndocs,
                params.weight, params.norm, dist, overlapOnly, k, ops)
    {
      lists := QueryBatch(data, nwords, words, docs, ndocs, params.weight, params.norm, dist, overlapOnly, k, ops);
    }

    /** clear empties both vectors; the counts and parameters stay. */
    method Clear()
      modifies this
      ensures docs == [] && words == []
      ensures nwords == old(nwords) && ndocs == old(ndocs) && params == old(params)
    {
      docs := [];
      words := [];
    }

    /** save: the stream operator<< writes. */
    method Save() returns (s: seq<Token>)
      requires ndocs <= |docs| && nwords <= |words|
      ensures s == EncodeIndex(State())
    {
      s := Write(State());
    }

    /** load: the stream operator>> reads, into this object. On success
        every field is replaced; a document keeps the statistics it held
        before (only its token count is stored). On failure nothing
        changes. */
    method Load(s: seq<Token>) returns (err: Option<LoadError>)
      modifies this
      ensures match DecodeIndex(s, old(docs))
        case Ok(st) => err == None && State() == st
        case Err(e) => err == Some(e) && State() == old(State())
    {
      var r := DecodeIndex(s, docs);
      match r
      case Ok(st) =>
        params, ndocs, docs, nwords, words := st.params, st.ndocs, st.docs, st.nwords, st.words;
        err := None;
      case Err(e) =>
        err := Some(e);
    }
  }
}
