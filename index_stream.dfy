/** The inverted file's binary stream format: the parameters' two codes,
    the document count and each document's token count, the word count and
    each word's document count and total frequency, then every word's
    postings (count, document id, value), word after word. */
module IndexStream {
  import opened Base
  import opened Entries
  import opened Filling

  /** What the stream of an inverted file holds. */
  datatype Snapshot = Snapshot(params: Params, ndocs: nat, docs: seq<Doc>, nwords: nat, words: seq<Word>)

  /** Why a load fails: the parameter check rejects a code, or the stream
      ends early or holds a field of another kind. */
  datatype LoadError = ParamsRejected(e: ParamsError) | BadField

  // Encoding -------------------------------------------------------------

  function EncodeParams(p: Params): seq<Token>
  {
    [Nat(NormCode(p.norm)), Nat(WeightCode(p.weight))]
  }

  /** Documents are saved by their token count only. */
  function EncodeDocs(ds: seq<Doc>): seq<Token>
  {
    if |ds| == 0 then [] else [Nat(ds[0].ntokens)] + EncodeDocs(ds[1..])
  }

  /** A word's header: its document count and total frequency. */
  function EncodeHeads(ws: seq<Word>): seq<Token>
  {
    if |ws| == 0 then [] else [Nat(ws[0].ndocs), Nat(ws[0].wf)] + EncodeHeads(ws[1..])
  }

  function EncodePosting(p: WordDoc): seq<Token>
  {
    [Nat(p.count), Nat(p.doc), Real(p.val)]
  }

  function EncodePostings(ps: seq<WordDoc>): seq<Token>
  {
    if |ps| == 0 then [] else EncodePosting(ps[0]) + EncodePostings(ps[1..])
  }

  /** Every posting of every word, each list written in full. */
  function EncodeWordPostings(ws: seq<Word>): seq<Token>
  {
    if |ws| == 0 then [] else EncodePostings(ws[0].docs) + EncodeWordPostings(ws[1..])
  }

  /** operator<< for the inverted file: the first `ndocs` documents and the
      first `nwords` words. */
  function EncodeIndex(st: Snapshot): (r: seq<Token>)
    requires st.ndocs <= |st.docs| && st.nwords <= |st.words|
    ensures |r| >= 4
    ensures r[..2] == EncodeParams(st.params) && r[2] == Nat(st.ndocs)
  {
    var ds, ws := st.docs[..st.ndocs], st.words[..st.nwords];
    EncodeParams(st.params) + [Nat(st.ndocs)] + EncodeDocs(ds) + [Nat(st.nwords)] + EncodeHeads(ws) + EncodeWordPostings(ws)
  }

  lemma {:induction false} EncodeDocsSnoc(ds: seq<Doc>, d: Doc)
    ensures EncodeDocs(ds + [d]) == EncodeDocs(ds) + [Nat(d.ntokens)]
  {
    if |ds| > 0 {
      assert (ds + [d])[1..] == ds[1..] + [d];
      EncodeDocsSnoc(ds[1..], d);
    } else {
      assert (ds + [d])[1..] == [];
    }
  }

  lemma {:induction false} EncodeHeadsSnoc(ws: seq<Word>, w: Word)
    ensures EncodeHeads(ws + [w]) == EncodeHeads(ws) + [Nat(w.ndocs), Nat(w.wf)]
  {
    if |ws| > 0 {
      assert (ws + [w])[1..] == ws[1..] + [w];
      EncodeHeadsSnoc(ws[1..], w);
    } else {
      assert (ws + [w])[1..] == [];
    }
  }

  lemma {:induction false} EncodePostingsSnoc(ps: seq<WordDoc>, p: WordDoc)
    ensures EncodePostings(ps + [p]) == EncodePostings(ps) + EncodePosting(p)
  {
    if |ps| > 0 {
      assert (ps + [p])[1..] == ps[1..] + [p];
      EncodePostingsSnoc(ps[1..], p);
    } else {
      assert (ps + [p])[1..] == [];
    }
  }

  lemma {:induction false} EncodeWordPostingsSnoc(ws: seq<Word>, w: Word)
    ensures EncodeWordPostings(ws + [w]) == EncodeWordPostings(ws) + EncodePostings(w.docs)
  {
    if |ws| > 0 {
      assert (ws + [w])[1..] == ws[1..] + [w];
      EncodeWordPostingsSnoc(ws[1..], w);
    } else {
      assert (ws + [w])[1..] == [];
    }
  }

  // Decoding -------------------------------------------------------------

  /** operator>> for Params: two codes, then the check. */
  function DecodeParams(s: seq<Token>): Result<Parsed<Params>, LoadError>
  {
    match ReadNat(s, BadField)
    case Err(e) => Err(e)
    case Ok(a) =>
      match ReadNat(a.rest, BadField)
      case Err(e) => Err(e)
      case Ok(b) =>
        match CheckParams(a.value, b.value)
        case Err(e) => Err(ParamsRejected(e))
        case Ok(p) => Ok(Parsed(p, b.rest))
  }

  /** `k` token counts. */
  function DecodeCounts(s: seq<Token>, k: nat): (r: Result<Parsed<seq<nat>>, LoadError>)
    ensures r.Ok? ==> |r.value.value| == k
  {
    if k == 0 then Ok(Parsed([], s))
    else
      match ReadNat(s, BadField)
      case Err(e) => Err(e)
      case Ok(a) =>
        match DecodeCounts(a.rest, k - 1)
        case Err(e) => Err(e)
        case Ok(b) => Ok(Parsed([a.value] + b.value, b.rest))
  }

  /** `k` word headers, as words whose posting lists are still empty. */
  function DecodeHeads(s: seq<Token>, k: nat): (r: Result<Parsed<seq<Word>>, LoadError>)
    ensures r.Ok? ==> |r.value.value| == k
  {
    if k == 0 then Ok(Parsed([], s))
    else
      match ReadNat(s, BadField)
      case Err(e) => Err(e)
      case Ok(a) =>
        match ReadNat(a.rest, BadField)
        case Err(e) => Err(e)
        case Ok(b) =>
          match DecodeHeads(b.rest, k - 1)
          case Err(e) => Err(e)
          case Ok(c) => Ok(Parsed([Word(a.value, b.value, [])] + c.value, c.rest))
  }

  function DecodePosting(s: seq<Token>): Result<Parsed<WordDoc>, LoadError>
  {
    match ReadNat(s, BadField)
    case Err(e) => Err(e)
    case Ok(a) =>
      match ReadNat(a.rest, BadField)
      case Err(e) => Err(e)
      case Ok(b) =>
        match ReadReal(b.rest, BadField)
        case Err(e) => Err(e)
        case Ok(c) => Ok(Parsed(WordDoc(a.value, c.value, b.value), c.rest))
  }

  /** `k` postings. */
  function DecodePostings(s: seq<Token>, k: nat): (r: Result<Parsed<seq<WordDoc>>, LoadError>)
    ensures r.Ok? ==> |r.value.value| == k
  {
    if k == 0 then Ok(Parsed([], s))
    else
      match DecodePosting(s)
      case Err(e) => Err(e)
      case Ok(a) =>
        match DecodePostings(a.rest, k - 1)
        case Err(e) => Err(e)
        case Ok(b) => Ok(Parsed([a.value] + b.value, b.rest))
  }

  /** Each word's posting list, as many postings as its stored document
      count says. */
  function DecodeWordPostings(s: seq<Token>, heads: seq<Word>): (r: Result<Parsed<seq<Word>>, LoadError>)
    ensures r.Ok? ==> |r.value.value| == |heads|
    ensures r.Ok? ==> forall i :: 0 <= i < |heads| ==>
      r.value.value[i] == heads[i].(docs := r.value.value[i].docs) && |r.value.value[i].docs| == heads[i].ndocs
    decreases |heads|
  {
    if |heads| == 0 then Ok(Parsed([], s))
    else
      match DecodePostings(s, heads[0].ndocs)
      case Err(e) => Err(e)
      case Ok(a) =>
        match DecodeWordPostings(a.rest, heads[1..])
        case Err(e) => Err(e)
        case Ok(b) =>
          var r := [heads[0].(docs := a.value)] + b.value;
          assert forall i :: 1 <= i < |heads| ==> r[i] == b.value[i - 1] && heads[i] == heads[1..][i - 1];
          Ok(Parsed(r, b.rest))
  }

  /** The documents after a load into an object holding `prior`: the vector
      is resized to the stored count, keeping what it held, and only each
      document's token count is read. */
  function Restored(prior: seq<Doc>, counts: seq<nat>): (r: seq<Doc>)
    ensures |r| == |counts|
    ensures forall i :: 0 <= i < |counts| ==> r[i] == (if i < |prior| then prior[i] else NewDoc).(ntokens := counts[i])
  {
    var base := Resize(prior, |counts|, NewDoc);
    seq(|counts|, i requires 0 <= i < |counts| => base[i].(ntokens := counts[i]))
  }

  function TokenCounts(ds: seq<Doc>): (r: seq<nat>)
    ensures |r| == |ds| && forall i :: 0 <= i < |ds| ==> r[i] == ds[i].ntokens
  {
    seq(|ds|, i requires 0 <= i < |ds| => ds[i].ntokens)
  }

  /** operator>> for the inverted file, into an object whose documents are
      `prior`; tokens after the last posting are not read. */
  function DecodeIndex(s: seq<Token>, prior: seq<Doc>): Result<Snapshot, LoadError>
  {
    match DecodeParams(s)
    case Err(e) => Err(e)
    case Ok(p) =>
      match ReadNat(p.rest, BadField)
      case Err(e) => Err(e)
      case Ok(nd) =>
        match DecodeCounts(nd.rest, nd.value)
        case Err(e) => Err(e)
        case Ok(cs) =>
          match ReadNat(cs.rest, BadField)
          case Err(e) => Err(e)
          case Ok(nw) =>
            match DecodeHeads(nw.rest, nw.value)
            case Err(e) => Err(e)
            case Ok(hs) =>
              match DecodeWordPostings(hs.rest, hs.value)
              case Err(e) => Err(e)
              case Ok(ws) => Ok(Snapshot(p.value, nd.value, Restored(prior, cs.value), nw.value, ws.value))
  }

  // Round trips ----------------------------------------------------------

  /** What a stream needs to be read back as written: the counts match the
      vectors, and every word's document count matches its posting list
      (load reads as many postings as that count says). */
  predicate Saveable(st: Snapshot)
  {
    && st.ndocs == |st.docs| && st.nwords == |st.words|
    && forall i :: 0 <= i < |st.words| ==> st.words[i].ndocs == |st.words[i].docs|
  }

  lemma DecodeParamsRoundTrip(p: Params, rest: seq<Token>)
    ensures DecodeParams(EncodeParams(p) + rest) == Ok(Parsed(p, rest))
  {
    CheckAcceptsEveryParams(p);
    var s := EncodeParams(p) + rest;
    assert s[0] == Nat(NormCode(p.norm)) && s[1..][0] == Nat(WeightCode(p.weight));
    assert s[1..][1..] == rest;
  }

  lemma {:induction false} DecodeCountsRoundTrip(ds: seq<Doc>, rest: seq<Token>)
    ensures DecodeCounts(EncodeDocs(ds) + rest, |ds|) == Ok(Parsed(TokenCounts(ds), rest))
  {
    var s := EncodeDocs(ds) + rest;
    if |ds| == 0 {
      assert s == rest;
    } else {
      DecodeCountsRoundTrip(ds[1..], rest);
      assert s[0] == Nat(ds[0].ntokens);
      assert s[1..] == EncodeDocs(ds[1..]) + rest;
      assert TokenCounts(ds) == [ds[0].ntokens] + TokenCounts(ds[1..]);
    }
  }

  /** The words as their headers alone describe them. */
  function Heads(ws: seq<Word>): (r: seq<Word>)
    ensures |r| == |ws| && forall i :: 0 <= i < |ws| ==> r[i] == ws[i].(docs := [])
  {
    seq(|ws|, i requires 0 <= i < |ws| => ws[i].(docs := []))
  }

  lemma {:induction false} DecodeHeadsRoundTrip(ws: seq<Word>, rest: seq<Token>)
    ensures DecodeHeads(EncodeHeads(ws) + rest, |ws|) == Ok(Parsed(Heads(ws), rest))
  {
    if |ws| == 0 {
      assert EncodeHeads(ws) + rest == rest;
    } else {
      var u := EncodeHeads(ws[1..]) + rest;
      DecodeHeadsRoundTrip(ws[1..], rest);
      AppendAssoc([Nat(ws[0].ndocs), Nat(ws[0].wf)], EncodeHeads(ws[1..]), rest);
      DecodeHeadsCons(ws[0].ndocs, ws[0].wf, u, |ws| - 1, Heads(ws[1..]), rest);
      assert Heads(ws) == [Word(ws[0].ndocs, ws[0].wf, [])] + Heads(ws[1..]);
    }
  }

  /** How the header reader proceeds, word after word. */
  lemma DecodeHeadsCons(nd: nat, wf: nat, u: seq<Token>, k: nat, hs: seq<Word>, rest: seq<Token>)
    requires DecodeHeads(u, k) == Ok(Parsed(hs, rest))
    ensures DecodeHeads([Nat(nd), Nat(wf)] + u, k + 1) == Ok(Parsed([Word(nd, wf, [])] + hs, rest))
  {
    var s := [Nat(nd), Nat(wf)] + u;
    assert s[1..][1..] == u;
  }

  lemma DecodePostingRoundTrip(p: WordDoc, rest: seq<Token>)
    ensures DecodePosting(EncodePosting(p) + rest) == Ok(Parsed(p, rest))
  {
    var s := EncodePosting(p) + rest;
    assert s[0] == Nat(p.count) && s[1..][0] == Nat(p.doc) && s[1..][1..][0] == Real(p.val);
    assert s[1..][1..][1..] == rest;
  }

  lemma {:induction false} DecodePostingsRoundTrip(ps: seq<WordDoc>, rest: seq<Token>)
    ensures DecodePostings(EncodePostings(ps) + rest, |ps|) == Ok(Parsed(ps, rest))
  {
    if |ps| == 0 {
      assert EncodePostings(ps) + rest == rest;
    } else {
      var u := EncodePostings(ps[1..]) + rest;
      DecodePostingsRoundTrip(ps[1..], rest);
      DecodePostingRoundTrip(ps[0], u);
      AppendAssoc(EncodePosting(ps[0]), EncodePostings(ps[1..]), rest);
      DecodePostingsCons(EncodePosting(ps[0]) + u, ps[0], u, |ps| - 1, ps[1..], rest);
      assert ps == [ps[0]] + ps[1..];
    }
  }

  /** How the postings reader of one word proceeds, posting after posting. */
  lemma DecodePostingsCons(s: seq<Token>, p: WordDoc, u: seq<Token>, k: nat, ps: seq<WordDoc>, rest: seq<Token>)
    requires DecodePosting(s) == Ok(Parsed(p, u))
    requires DecodePostings(u, k) == Ok(Parsed(ps, rest))
    ensures DecodePostings(s, k + 1) == Ok(Parsed([p] + ps, rest))
  {
  }

  lemma {:induction false} DecodeWordPostingsRoundTrip(ws: seq<Word>, rest: seq<Token>)
    requires forall i :: 0 <= i < |ws| ==> ws[i].ndocs == |ws[i].docs|
    ensures DecodeWordPostings(EncodeWordPostings(ws) + rest, Heads(ws)) == Ok(Parsed(ws, rest))
  {
    if |ws| == 0 {
      assert EncodeWordPostings(ws) + rest == rest;
    } else {
      var a, b := EncodePostings(ws[0].docs), EncodeWordPostings(ws[1..]);
      DecodeWordPostingsRoundTrip(ws[1..], rest);
      DecodePostingsRoundTrip(ws[0].docs, b + rest);
      AppendAssoc(a, b, rest);
      var hs := Heads(ws);
      assert hs[1..] == Heads(ws[1..]);
      DecodeWordPostingsCons(hs, a + (b + rest), ws[0].docs, b + rest, ws[1..], rest);
      assert [hs[0].(docs := ws[0].docs)] + ws[1..] == ws;
    }
  }

  /** How the postings reader proceeds, word after word. */
  lemma DecodeWordPostingsCons(hs: seq<Word>, s: seq<Token>, ps: seq<WordDoc>, u: seq<Token>, ws: seq<Word>, rest: seq<Token>)
    requires |hs| > 0
    requires DecodePostings(s, hs[0].ndocs) == Ok(Parsed(ps, u))
    requires DecodeWordPostings(u, hs[1..]) == Ok(Parsed(ws, rest))
    ensures DecodeWordPostings(s, hs) == Ok(Parsed([hs[0].(docs := ps)] + ws, rest))
  {
  }

  /** Loading what was saved gives back the parameters, the counts, every
      word with its postings and every document's token count; the other
      fields of a document are those the loading object already held (a
      fresh document's where it held none), since they are not saved. */
  lemma LoadAfterSave(st: Snapshot, prior: seq<Doc>, rest: seq<Token>)
    requires Saveable(st)
    ensures DecodeIndex(EncodeIndex(st) + rest, prior)
      == Ok(st.(docs := Restored(prior, TokenCounts(st.docs))))
  {
    var ds, ws := st.docs[..st.ndocs], st.words[..st.nwords];
    assert ds == st.docs && ws == st.words;
    var t4 := EncodeWordPostings(ws) + rest;
    var t3 := EncodeHeads(ws) + t4;
    var t1 := EncodeDocs(ds) + ([Nat(st.nwords)] + t3);
    EncodeIndexParts(st, rest);
    DecodeParamsRoundTrip(st.params, [Nat(st.ndocs)] + t1);
    DecodeCountsRoundTrip(ds, [Nat(st.nwords)] + t3);
    DecodeHeadsRoundTrip(ws, t4);
    DecodeWordPostingsRoundTrip(ws, rest);
    DecodeIndexOf(EncodeIndex(st) + rest, prior, st.params, st.ndocs, t1, TokenCounts(ds), st.nwords, t3, Heads(ws), t4, ws, rest);
  }

  /** The saved stream, field after field. */
  lemma EncodeIndexParts(st: Snapshot, rest: seq<Token>)
    requires st.ndocs <= |st.docs| && st.nwords <= |st.words|
    ensures var ds, ws := st.docs[..st.ndocs], st.words[..st.nwords];
      EncodeIndex(st) + rest
      == EncodeParams(st.params) + ([Nat(st.ndocs)] + (EncodeDocs(ds) + ([Nat(st.nwords)] + (EncodeHeads(ws) + (EncodeWordPostings(ws) + rest)))))
  {
    var ds, ws := st.docs[..st.ndocs], st.words[..st.nwords];
    var p, d, h, w := EncodeParams(st.params), EncodeDocs(ds), EncodeHeads(ws), EncodeWordPostings(ws);
    var nd, nw := [Nat(st.ndocs)], [Nat(st.nwords)];
    AppendAssoc(p + nd + d + nw + h, w, rest);
    AppendAssoc(p + nd + d + nw, h, w + rest);
    AppendAssoc(p + nd + d, nw, h + (w + rest));
    AppendAssoc(p + nd, d, nw + (h + (w + rest)));
    AppendAssoc(p, nd, d + (nw + (h + (w + rest))));
  }

  /** How the index reader proceeds, section by section. */
  lemma DecodeIndexOf(s: seq<Token>, prior: seq<Doc>, p: Params, nd: nat, t1: seq<Token>, cs: seq<nat>,
                      nw: nat, t3: seq<Token>, hs: seq<Word>, t4: seq<Token>, ws: seq<Word>, rest: seq<Token>)
    requires DecodeParams(s) == Ok(Parsed(p, [Nat(nd)] + t1))
    requires DecodeCounts(t1, nd) == Ok(Parsed(cs, [Nat(nw)] + t3))
    requires DecodeHeads(t3, nw) == Ok(Parsed(hs, t4))
    requires DecodeWordPostings(t4, hs) == Ok(Parsed(ws, rest))
    ensures DecodeIndex(s, prior) == Ok(Snapshot(p, nd, Restored(prior, cs), nw, ws))
  {
    assert ([Nat(nd)] + t1)[1..] == t1;
    assert ([Nat(nw)] + t3)[1..] == t3;
  }

  /** Saving and loading back into the same object restores it exactly. */
  lemma LoadAfterSaveRestores(st: Snapshot, rest: seq<Token>)
    requires Saveable(st)
    ensures DecodeIndex(EncodeIndex(st) + rest, st.docs) == Ok(st)
  {
    LoadAfterSave(st, st.docs, rest);
    assert Restored(st.docs, TokenCounts(st.docs)) == st.docs;
  }

  /** A stream whose parameter codes fail the check is rejected with the
      check's error, whatever follows them. */
  lemma LoadRejectsBadParams(normCode: nat, weightCode: nat, rest: seq<Token>, prior: seq<Doc>)
    requires !(normCode < NormLast && weightCode < WeightLast)
    ensures DecodeIndex([Nat(normCode), Nat(weightCode)] + rest, prior)
      == Err(ParamsRejected(CheckParams(normCode, weightCode).error))
  {
    assert ([Nat(normCode), Nat(weightCode)] + rest)[1..] == [Nat(weightCode)] + rest;
  }

  /** The writer of the index, field by field in the order of EncodeIndex. */
  method Write(st: Snapshot) returns (s: seq<Token>)
    requires st.ndocs <= |st.docs| && st.nwords <= |st.words|
    ensures s == EncodeIndex(st)
  {
    var docs, words := st.docs[..st.ndocs], st.words[..st.nwords];
    var counts := WriteCounts(docs);
    var heads := WriteHeads(words);
    var postings := WriteWordPostings(words);
    s := EncodeParams(st.params) + [Nat(st.ndocs)] + counts + [Nat(st.nwords)] + heads + postings;
  }

  /** The token count of every document, in order. */
  method WriteCounts(docs: seq<Doc>) returns (s: seq<Token>)
    ensures s == EncodeDocs(docs)
  {
    s := [];
    assert docs[..0] == [];
    for i := 0 to |docs|
      invariant s == EncodeDocs(docs[..i])
    {
      EncodeDocsSnoc(docs[..i], docs[i]);
      assert docs[..i + 1] == docs[..i] + [docs[i]];
      s := s + [Nat(docs[i].ntokens)];
    }
    assert docs[..|docs|] == docs;
  }

  /** The header of every word, in order. */
  method WriteHeads(words: seq<Word>) returns (s: seq<Token>)
    ensures s == EncodeHeads(words)
  {
    s := [];
    assert words[..0] == [];
    for i := 0 to |words|
      invariant s == EncodeHeads(words[..i])
    {
      EncodeHeadsSnoc(words[..i], words[i]);
      assert words[..i + 1] == words[..i] + [words[i]];
      s := s + [Nat(words[i].ndocs), Nat(words[i].wf)];
    }
    assert words[..|words|] == words;
  }

  /** The postings of every word, word after word. */
  method WriteWordPostings(words: seq<Word>) returns (s: seq<Token>)
    ensures s == EncodeWordPostings(words)
  {
    s := [];
    assert words[..0] == [];
    for i := 0 to |words|
      invariant s == EncodeWordPostings(words[..i])
    {
      var ps := WritePostings(words[i].docs);
      EncodeWordPostingsSnoc(words[..i], words[i]);
      assert words[..i + 1] == words[..i] + [words[i]];
      s := s + ps;
    }
    assert words[..|words|] == words;
  }

  /** The postings of one word, in order. */
  method WritePostings(ps: seq<WordDoc>) returns (s: seq<Token>)
    ensures s == EncodePostings(ps)
  {
    s := [];
    assert ps[..0] == [];
    for j := 0 to |ps|
      invariant s == EncodePostings(ps[..j])
    {
      EncodePostingsSnoc(ps[..j], ps[j]);
      assert ps[..j + 1] == ps[..j] + [ps[j]];
      s := s + [Nat(ps[j].count), Nat(ps[j].doc), Real(ps[j].val)];
    }
    assert ps[..|ps|] == ps;
  }
}
