/** The records of the inverted file, their orderings, the scheme
    enumerations and the parameter block. */
module Entries {
  import opened Base

  /** ivWordDoc: a posting — how often a word occurs in document `doc`, and
      the weighted value computed for it. */
  datatype WordDoc = WordDoc(count: nat, val: real, doc: nat)

  /** ivWord: the postings of one word, ordered by document, with the number
      of documents (`ndocs`) and of occurrences (`wf`) of the word. */
  datatype Word = Word(ndocs: nat, wf: nat, docs: seq<WordDoc>)

  /** ivDoc: per-document aggregates. The norms and the word list are only
      meaningful after the statistics pass. */
  datatype Doc = Doc(norml0: real, norml1: real, norml2: real, ntokens: nat, nwords: nat, words: seq<nat>)

  /** ivNode: an (id, value) pair, a document score or a query word count. */
  datatype Node = Node(val: real, id: nat)

  // Default-constructed records: every number zero, every list empty.
  const NewWordDoc: WordDoc := WordDoc(0, 0.0, 0)
  const NewWord: Word := Word(0, 0, [])
  const NewDoc: Doc := Doc(0.0, 0.0, 0.0, 0, 0, [])
  const NewNode: Node := Node(0.0, 0)

  /** The key that ivWordDoc's operator< compares: the document only. */
  function DocOf(p: WordDoc): nat { p.doc }

  /** The key that ivNode's operator< compares: the id only. */
  function IdOf(n: Node): nat { n.id }

  predicate WordDocLess(a: WordDoc, b: WordDoc) { DocOf(a) < DocOf(b) }

  predicate NodeLess(a: Node, b: Node) { IdOf(a) < IdOf(b) }

  /** ivNodeCmpValAsc and ivNodeCmpValDesc: compare values only. */
  predicate ValAsc(a: Node, b: Node) { a.val < b.val }

  predicate ValDesc(a: Node, b: Node) { a.val > b.val }

  lemma OrderingsIgnorePayload(a: WordDoc, b: WordDoc, n: Node, m: Node, c: nat, v: real, x: nat)
    ensures WordDocLess(a.(count := c, val := v), b) == WordDocLess(a, b)
    ensures NodeLess(n.(val := v), m) == NodeLess(n, m)
    ensures ValAsc(n.(id := x), m) == ValAsc(n, m)
    ensures ValDesc(n, m) == ValAsc(m, n)
  {
  }

  /** ivFile::Norm, ivFile::Dist and ivFile::Weight without their *_LAST
      sentinels; the sentinels are the constants below. */
  datatype Norm = NormNone | NormL0 | NormL1 | NormL2

  datatype Dist = DistL1 | DistL2 | DistHam | DistKL | DistCos | DistJac | DistHistInt

  datatype Weight = WeightNone | WeightBin | WeightTF | WeightTFIDF

  const NormLast: nat := 4
  const DistLast: nat := 7
  const WeightLast: nat := 4

  /** The numeric value of a Norm: its position in the enumeration. */
  function NormCode(n: Norm): (c: nat)
    ensures c < NormLast
    ensures NormOf(c) == Some(n)
  {
    match n
    case NormNone => 0
    case NormL0 => 1
    case NormL1 => 2
    case NormL2 => 3
  }

  function NormOf(c: nat): (r: Option<Norm>)
    ensures r.Some? <==> c < NormLast
  {
    if c == 0 then Some(NormNone)
    else if c == 1 then Some(NormL0)
    else if c == 2 then Some(NormL1)
    else if c == 3 then Some(NormL2)
    else None
  }

  function DistCode(d: Dist): (c: nat)
    ensures c < DistLast
    ensures DistOf(c) == Some(d)
  {
    match d
    case DistL1 => 0
    case DistL2 => 1
    case DistHam => 2
    case DistKL => 3
    case DistCos => 4
    case DistJac => 5
    case DistHistInt => 6
  }

  function DistOf(c: nat): (r: Option<Dist>)
    ensures r.Some? <==> c < DistLast
  {
    if c == 0 then Some(DistL1)
    else if c == 1 then Some(DistL2)
    else if c == 2 then Some(DistHam)
    else if c == 3 then Some(DistKL)
    else if c == 4 then Some(DistCos)
    else if c == 5 then Some(DistJac)
    else if c == 6 then Some(DistHistInt)
    else None
  }

  function WeightCode(w: Weight): (c: nat)
    ensures c < WeightLast
    ensures WeightOf(c) == Some(w)
  {
    match w
    case WeightNone => 0
    case WeightBin => 1
    case WeightTF => 2
    case WeightTFIDF => 3
  }

  function WeightOf(c: nat): (r: Option<Weight>)
    ensures r.Some? <==> c < WeightLast
  {
    if c == 0 then Some(WeightNone)
    else if c == 1 then Some(WeightBin)
    else if c == 2 then Some(WeightTF)
    else if c == 3 then Some(WeightTFIDF)
    else None
  }

  /** ivFile::Params. Its fields are typed, so a Params value is always one
      that check() accepts; raw codes are validated by CheckParams. */
  datatype Params = Params(norm: Norm, weight: Weight)

  const DefaultParams: Params := Params(NormL1, WeightNone)

  /** The logic_error that check() throws, naming the offending field. */
  datatype ParamsError = NormOutOfRange | WeightOutOfRange

  /** Params::check applied to raw enumeration codes: the norm is checked
      first, then the weight. */
  function CheckParams(normCode: nat, weightCode: nat): (r: Result<Params, ParamsError>)
    ensures r.Ok? <==> normCode < NormLast && weightCode < WeightLast
    ensures r.Ok? ==> NormCode(r.value.norm) == normCode && WeightCode(r.value.weight) == weightCode
    ensures normCode >= NormLast ==> r == Err(NormOutOfRange)
    ensures normCode < NormLast && weightCode >= WeightLast ==> r == Err(WeightOutOfRange)
  {
    match NormOf(normCode)
    case None => Err(NormOutOfRange)
    case Some(n) =>
      match WeightOf(weightCode)
      case None => Err(WeightOutOfRange)
      case Some(w) => Ok(Params(n, w))
  }

  lemma {:induction false} CheckAcceptsEveryParams(p: Params)
    ensures CheckParams(NormCode(p.norm), WeightCode(p.weight)) == Ok(p)
  {
    var n, w := NormCode(p.norm), WeightCode(p.weight);
    assert NormOf(n) == Some(p.norm);
    assert WeightOf(w) == Some(p.weight);
  }
}
