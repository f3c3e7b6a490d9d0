/** The serialiser of the vocabulary tree: the stream operators for a k-means
    filter, a tree node, the tree and the `HIKMTree` wrapper. The vlfeat
    structures are modelled as values; a null reference is `None`. */
module HikmStream {
  import opened Base

  /** The code of VL_IKM_ELKAN in vlfeat's VlIKMAlgorithms, which declares
      VL_IKM_LLOYD (0) first. */
  const Elkan: int := 1

  /** VlIKMFilt: M dimensions, K clusters, the algorithm, the iteration cap,
      the verbosity, M*K centers and, for ELKAN, K*K inter-center
      distances. */
  datatype Filt = Filt(m: nat, k: nat, algo: int, maxNiters: nat, verb: int,
                       centers: Option<seq<int>>, interDist: Option<seq<int>>)

  /** VlHIKMNode: a filter and, above the leaf level, an array of K child
      references. */
  datatype HNode = HNode(filter: Option<Filt>, children: Children)

  /** The `children` field: null, or an array of (possibly null) child
      references. */
  datatype Children = NoChildren | Children(nodes: seq<Option<HNode>>)

  /** VlHIKMTree: the header fields and the root. */
  datatype HTree = HTree(m: nat, k: nat, maxNiters: nat, algo: int, verb: int, depth: nat, root: Option<HNode>)

  /** HIKMTree: the leaf count and the vlfeat tree. */
  datatype Hikm = Hikm(leaves: int, tree: Option<HTree>)

  /** The runtime_error a writer throws on a null reference. */
  datatype SaveError = NullCenters | NullInterDist | NullFilter | NullChild | NullRoot | NullTree

  /** A reader meets the end of the stream or a field of another kind. */
  datatype ReadError = Malformed

  // Shapes ------------------------------------------------------------------

  /** Every buffer holds as many entries as its header says: M*K centers,
      K*K distances where they are written, K children. */
  predicate FiltSized(f: Filt)
  {
    && (f.centers.Some? ==> |f.centers.value| == f.m * f.k)
    && (f.algo == Elkan && f.interDist.Some? ==> |f.interDist.value| == f.k * f.k)
  }

  predicate NodeSized(n: HNode)
  {
    match n.filter
    case None => true
    case Some(f) =>
      && FiltSized(f)
      && (n.children.Children? ==>
            && |n.children.nodes| == f.k
            && forall i :: 0 <= i < |n.children.nodes| && n.children.nodes[i].Some? ==> NodeSized(n.children.nodes[i].value))
  }

  predicate TreeSized(t: HTree)
  {
    t.root.Some? ==> NodeSized(t.root.value)
  }

  predicate HikmSized(h: Hikm)
  {
    h.tree.Some? ==> TreeSized(h.tree.value)
  }

  /** Nothing a writer dereferences is null. */
  predicate FiltSaveable(f: Filt)
  {
    f.centers.Some? && (f.algo == Elkan ==> f.interDist.Some?)
  }

  predicate NodeSaveable(n: HNode)
  {
    && n.filter.Some? && FiltSaveable(n.filter.value)
    && (n.children.Children? ==>
          forall i :: 0 <= i < |n.children.nodes| ==> n.children.nodes[i].Some? && NodeSaveable(n.children.nodes[i].value))
  }

  predicate HikmSaveable(h: Hikm)
  {
    h.tree.Some? && h.tree.value.root.Some? && NodeSaveable(h.tree.value.root.value)
  }

  /** What a reader rebuilds: the distances are only kept for ELKAN (the
      reader sets them to null otherwise), every child is present. */
  function CanonFilt(f: Filt): Filt
  {
    if f.algo == Elkan then f else f.(interDist := None)
  }

  function CanonNode(n: HNode): HNode
    decreases n, 1
  {
    HNode(if n.filter.Some? then Some(CanonFilt(n.filter.value)) else None,
          if n.children.Children? then Children(CanonChildren(n, 0)) else NoChildren)
  }

  function CanonChildren(n: HNode, i: nat): (r: seq<Option<HNode>>)
    requires n.children.Children? && i <= |n.children.nodes|
    ensures |r| == |n.children.nodes| - i
    decreases n, 0, |n.children.nodes| - i
  {
    var cs := n.children.nodes;
    if i == |cs| then []
    else [if cs[i].Some? then Some(CanonNode(cs[i].value)) else None] + CanonChildren(n, i + 1)
  }

  function CanonHikm(h: Hikm): Hikm
  {
    match h.tree
    case None => h
    case Some(t) => h.(tree := Some(t.(root := if t.root.Some? then Some(CanonNode(t.root.value)) else None)))
  }

  // Writers -------------------------------------------------------------------

  function EncodeInts(xs: seq<int>): (r: seq<Token>)
    ensures |r| == |xs|
  {
    if |xs| == 0 then [] else [Int(xs[0])] + EncodeInts(xs[1..])
  }

  /** operator<< for VlIKMFilt. */
  function EncodeFilt(f: Filt): Result<seq<Token>, SaveError>
  {
    if f.centers.None? then Err(NullCenters)
    else if f.algo == Elkan && f.interDist.None? then Err(NullInterDist)
    else
      Ok(FiltHeader(f) + EncodeInts(f.centers.value)
         + (if f.algo == Elkan then EncodeInts(f.interDist.value) else []))
  }

  /** operator<< for VlHIKMNode: the filter, a children flag, the children. */
  function EncodeNode(n: HNode): Result<seq<Token>, SaveError>
    decreases n, 1
  {
    match n.filter
    case None => Err(NullFilter)
    case Some(f) =>
      match EncodeFilt(f)
      case Err(e) => Err(e)
      case Ok(fs) =>
        match n.children
        case NoChildren => Ok(fs + [Flag(false)])
        case Children(cs) =>
          match EncodeChildren(n, 0)
          case Err(e) => Err(e)
          case Ok(t) => Ok(fs + [Flag(true)] + t)
  }

  /** The children from the `i`-th on, in order. */
  function EncodeChildren(n: HNode, i: nat): Result<seq<Token>, SaveError>
    requires n.children.Children? && i <= |n.children.nodes|
    decreases n, 0, |n.children.nodes| - i
  {
    var cs := n.children.nodes;
    if i == |cs| then Ok([])
    else
      match cs[i]
      case None => Err(NullChild)
      case Some(c) =>
        match EncodeNode(c)
        case Err(e) => Err(e)
        case Ok(a) =>
          match EncodeChildren(n, i + 1)
          case Err(e) => Err(e)
          case Ok(b) => Ok(a + b)
  }

  /** operator<< for VlHIKMTree: its header, in an order of its own, and
      the root. */
  function EncodeTree(t: HTree): Result<seq<Token>, SaveError>
  {
    match t.root
    case None => Err(NullRoot)
    case Some(r) =>
      match EncodeNode(r)
      case Err(e) => Err(e)
      case Ok(s) => Ok(TreeHeader(t) + s)
  }

  function TreeHeader(t: HTree): (r: seq<Token>)
    ensures |r| == 6
  {
    [Nat(t.m), Nat(t.k), Nat(t.maxNiters), Int(t.algo), Int(t.verb), Nat(t.depth)]
  }

  /** operator<< for HIKMTree: the leaf count, then the tree. */
  function EncodeHikm(h: Hikm): Result<seq<Token>, SaveError>
  {
    match h.tree
    case None => Err(NullTree)
    case Some(t) =>
      match EncodeTree(t)
      case Err(e) => Err(e)
      case Ok(s) => Ok([Int(h.leaves)] + s)
  }

  // Readers -------------------------------------------------------------------

  function DecodeInts(s: seq<Token>, n: nat): (r: Result<Parsed<seq<int>>, ReadError>)
    ensures r.Ok? ==> |r.value.rest| <= |s| && |r.value.value| == n
  {
    if n == 0 then Ok(Parsed([], s))
    else
      match ReadInt(s, Malformed)
      case Err(e) => Err(e)
      case Ok(a) =>
        match DecodeInts(a.rest, n - 1)
        case Err(e) => Err(e)
        case Ok(b) => Ok(Parsed([a.value] + b.value, b.rest))
  }

  /** operator>> for VlIKMFilt: the header, M*K centers, and K*K distances
      exactly for ELKAN. */
  function DecodeFilt(s: seq<Token>): (r: Result<Parsed<Filt>, ReadError>)
    ensures r.Ok? ==> |r.value.rest| < |s|
  {
    match ReadNat(s, Malformed)
    case Err(e) => Err(e)
    case Ok(m) =>
      match ReadNat(m.rest, Malformed)
      case Err(e) => Err(e)
      case Ok(k) =>
        match ReadInt(k.rest, Malformed)
        case Err(e) => Err(e)
        case Ok(meth) =>
          match ReadNat(meth.rest, Malformed)
          case Err(e) => Err(e)
          case Ok(mx) =>
            match ReadInt(mx.rest, Malformed)
            case Err(e) => Err(e)
            case Ok(v) =>
              match DecodeInts(v.rest, m.value * k.value)
              case Err(e) => Err(e)
              case Ok(c) =>
                if meth.value == Elkan then
                  match DecodeInts(c.rest, k.value * k.value)
                  case Err(e) => Err(e)
                  case Ok(d) =>
                    Ok(Parsed(Filt(m.value, k.value, meth.value, mx.value, v.value, Some(c.value), Some(d.value)), d.rest))
                else
                  Ok(Parsed(Filt(m.value, k.value, meth.value, mx.value, v.value, Some(c.value), None), c.rest))
  }

  /** operator>> for VlHIKMNode: the filter, the flag, and K children
      exactly when the flag is set. */
  function DecodeNode(s: seq<Token>): (r: Result<Parsed<HNode>, ReadError>)
    ensures r.Ok? ==> |r.value.rest| < |s|
    decreases |s|, 0
  {
    match DecodeFilt(s)
    case Err(e) => Err(e)
    case Ok(f) =>
      match ReadFlag(f.rest, Malformed)
      case Err(e) => Err(e)
      case Ok(b) =>
        if !b.value then Ok(Parsed(HNode(Some(f.value), NoChildren), b.rest))
        else
          match DecodeChildren(b.rest, f.value.k)
          case Err(e) => Err(e)
          case Ok(c) => Ok(Parsed(HNode(Some(f.value), Children(c.value)), c.rest))
  }

  function DecodeChildren(s: seq<Token>, n: nat): (r: Result<Parsed<seq<Option<HNode>>>, ReadError>)
    ensures r.Ok? ==> |r.value.rest| <= |s| && |r.value.value| == n
    decreases |s|, 1, n
  {
    if n == 0 then Ok(Parsed([], s))
    else
      match DecodeNode(s)
      case Err(e) => Err(e)
      case Ok(a) =>
        match DecodeChildren(a.rest, n - 1)
        case Err(e) => Err(e)
        case Ok(b) => Ok(Parsed([Some(a.value)] + b.value, b.rest))
  }

  /** operator>> for VlHIKMTree. */
  function DecodeTree(s: seq<Token>): Result<Parsed<HTree>, ReadError>
  {
    match ReadNat(s, Malformed)
    case Err(e) => Err(e)
    case Ok(m) =>
      match ReadNat(m.rest, Malformed)
      case Err(e) => Err(e)
      case Ok(k) =>
        match ReadNat(k.rest, Malformed)
        case Err(e) => Err(e)
        case Ok(mx) =>
          match ReadInt(mx.rest, Malformed)
          case Err(e) => Err(e)
          case Ok(meth) =>
            match ReadInt(meth.rest, Malformed)
            case Err(e) => Err(e)
            case Ok(v) =>
              match ReadNat(v.rest, Malformed)
              case Err(e) => Err(e)
              case Ok(d) =>
                match DecodeNode(d.rest)
                case Err(e) => Err(e)
                case Ok(r) => Ok(Parsed(HTree(m.value, k.value, mx.value, meth.value, v.value, d.value, Some(r.value)), r.rest))
  }

  /** operator>> for HIKMTree: the leaf count, then a fresh tree. */
  function DecodeHikm(s: seq<Token>): Result<Parsed<Hikm>, ReadError>
  {
    match ReadInt(s, Malformed)
    case Err(e) => Err(e)
    case Ok(l) =>
      match DecodeTree(l.rest)
      case Err(e) => Err(e)
      case Ok(t) => Ok(Parsed(Hikm(l.value, Some(t.value)), t.rest))
  }

  // Properties ----------------------------------------------------------------

  lemma {:induction false} IntsRoundTrip(xs: seq<int>, rest: seq<Token>)
    ensures DecodeInts(EncodeInts(xs) + rest, |xs|) == Ok(Parsed(xs, rest))
  {
    if |xs| > 0 {
      var s := EncodeInts(xs) + rest;
      assert s == [Int(xs[0])] + (EncodeInts(xs[1..]) + rest);
      assert s[1..] == EncodeInts(xs[1..]) + rest;
      IntsRoundTrip(xs[1..], rest);
      assert xs == [xs[0]] + xs[1..];
    } else {
      assert EncodeInts(xs) + rest == rest;
    }
  }

  /** The header a filter is written with. */
  function FiltHeader(f: Filt): (r: seq<Token>)
    ensures |r| == 5
  {
    [Nat(f.m), Nat(f.k), Int(f.algo), Nat(f.maxNiters), Int(f.verb)]
  }

  lemma HeaderRead(f: Filt, y: seq<Token>)
    ensures var s := FiltHeader(f) + y;
      s[0] == Nat(f.m) && s[1..][0] == Nat(f.k) && s[2..][0] == Int(f.algo)
      && s[3..][0] == Nat(f.maxNiters) && s[4..][0] == Int(f.verb)
      && s[1..][1..] == s[2..] && s[2..][1..] == s[3..] && s[3..][1..] == s[4..] && s[4..][1..] == y
  {
    var s := FiltHeader(f) + y;
    assert s[4..] == [Int(f.verb)] + y;
  }

  /** How the filter reader proceeds after the header, for ELKAN and for
      any other algorithm. */
  lemma DecodeFiltElkan(f: Filt, y: seq<Token>, cs: seq<int>, u: seq<Token>, ds: seq<int>, rest: seq<Token>)
    requires f.algo == Elkan
    requires DecodeInts(y, f.m * f.k) == Ok(Parsed(cs, u))
    requires DecodeInts(u, f.k * f.k) == Ok(Parsed(ds, rest))
    ensures DecodeFilt(FiltHeader(f) + y) == Ok(Parsed(f.(centers := Some(cs), interDist := Some(ds)), rest))
  {
    HeaderRead(f, y);
  }

  lemma DecodeFiltPlain(f: Filt, y: seq<Token>, cs: seq<int>, rest: seq<Token>)
    requires f.algo != Elkan
    requires DecodeInts(y, f.m * f.k) == Ok(Parsed(cs, rest))
    ensures DecodeFilt(FiltHeader(f) + y) == Ok(Parsed(f.(centers := Some(cs), interDist := None), rest))
  {
    HeaderRead(f, y);
  }

  /** Reading a written filter gives it back, its distances dropped unless
      it is ELKAN. */
  lemma FiltRoundTrip(f: Filt, rest: seq<Token>)
    requires FiltSized(f) && FiltSaveable(f)
    ensures EncodeFilt(f).Ok?
    ensures DecodeFilt(EncodeFilt(f).value + rest) == Ok(Parsed(CanonFilt(f), rest))
  {
    var cs := f.centers.value;
    var h := FiltHeader(f);
    if f.algo == Elkan {
      var ds := f.interDist.value;
      assert EncodeFilt(f) == Ok(h + EncodeInts(cs) + EncodeInts(ds));
      AppendAssoc(h + EncodeInts(cs), EncodeInts(ds), rest);
      AppendAssoc(h, EncodeInts(cs), EncodeInts(ds) + rest);
      IntsRoundTrip(ds, rest);
      IntsRoundTrip(cs, EncodeInts(ds) + rest);
      DecodeFiltElkan(f, EncodeInts(cs) + (EncodeInts(ds) + rest), cs, EncodeInts(ds) + rest, ds, rest);
    } else {
      assert h + EncodeInts(cs) + [] == h + EncodeInts(cs);
      AppendAssoc(h, EncodeInts(cs), rest);
      IntsRoundTrip(cs, rest);
      DecodeFiltPlain(f, EncodeInts(cs) + rest, cs, rest);
    }
  }

  /** A filter is written exactly when its centers, and for ELKAN its
      distances, are there. */
  lemma FiltSavedIffSaveable(f: Filt)
    ensures EncodeFilt(f).Ok? <==> FiltSaveable(f)
    ensures f.centers.None? ==> EncodeFilt(f) == Err(NullCenters)
    ensures f.centers.Some? && f.algo == Elkan && f.interDist.None? ==> EncodeFilt(f) == Err(NullInterDist)
  {
  }

  /** How the node reader proceeds once its filter has been read. */
  lemma DecodeNodeLeaf(s: seq<Token>, g: Filt, rest: seq<Token>)
    requires DecodeFilt(s) == Ok(Parsed(g, [Flag(false)] + rest))
    ensures DecodeNode(s) == Ok(Parsed(HNode(Some(g), NoChildren), rest))
  {
    assert ([Flag(false)] + rest)[1..] == rest;
  }

  lemma DecodeNodeInner(s: seq<Token>, g: Filt, u: seq<Token>, kids: seq<Option<HNode>>, rest: seq<Token>)
    requires DecodeFilt(s) == Ok(Parsed(g, [Flag(true)] + u))
    requires DecodeChildren(u, g.k) == Ok(Parsed(kids, rest))
    ensures DecodeNode(s) == Ok(Parsed(HNode(Some(g), Children(kids)), rest))
  {
    assert ([Flag(true)] + u)[1..] == u;
  }

  /** Reading a written node gives back its canonical form: the reader
      mirrors the writer level by level. */
  lemma {:induction false} NodeRoundTrip(n: HNode, rest: seq<Token>)
    requires NodeSized(n) && NodeSaveable(n)
    ensures EncodeNode(n).Ok?
    ensures DecodeNode(EncodeNode(n).value + rest) == Ok(Parsed(CanonNode(n), rest))
    decreases n, 2
  {
    var f := n.filter.value;
    if n.children.NoChildren? {
      FiltRoundTrip(f, [Flag(false)] + rest);
      var fs := EncodeFilt(f).value;
      EncodeLeafIs(n, fs);
      AppendAssoc(fs, [Flag(false)], rest);
      DecodeNodeLeaf(fs + ([Flag(false)] + rest), CanonFilt(f), rest);
    } else {
      InnerRoundTrip(n, rest);
    }
  }

  lemma {:induction false} InnerRoundTrip(n: HNode, rest: seq<Token>)
    requires NodeSized(n) && NodeSaveable(n) && n.children.Children?
    ensures EncodeNode(n).Ok?
    ensures DecodeNode(EncodeNode(n).value + rest) == Ok(Parsed(CanonNode(n), rest))
    decreases n, 1
  {
    var f := n.filter.value;
    ChildrenRoundTrip(n, 0, rest);
    var t := EncodeChildren(n, 0).value;
    FiltRoundTrip(f, [Flag(true)] + (t + rest));
    var fs := EncodeFilt(f).value;
    EncodeInnerIs(n, fs, t);
    AppendAssoc(fs + [Flag(true)], t, rest);
    AppendAssoc(fs, [Flag(true)], t + rest);
    DecodeNodeInner(fs + ([Flag(true)] + (t + rest)), CanonFilt(f), t + rest, CanonChildren(n, 0), rest);
  }

  lemma EncodeLeafIs(n: HNode, fs: seq<Token>)
    requires n.filter.Some? && EncodeFilt(n.filter.value) == Ok(fs) && n.children.NoChildren?
    ensures EncodeNode(n) == Ok(fs + [Flag(false)])
  {
  }

  lemma EncodeInnerIs(n: HNode, fs: seq<Token>, t: seq<Token>)
    requires n.filter.Some? && EncodeFilt(n.filter.value) == Ok(fs) && n.children.Children?
    requires EncodeChildren(n, 0) == Ok(t)
    ensures EncodeNode(n) == Ok(fs + [Flag(true)] + t)
  {
  }

  lemma EncodeChildIs(n: HNode, i: nat, a: seq<Token>, b: seq<Token>)
    requires n.children.Children? && i < |n.children.nodes| && n.children.nodes[i].Some?
    requires EncodeNode(n.children.nodes[i].value) == Ok(a) && EncodeChildren(n, i + 1) == Ok(b)
    ensures EncodeChildren(n, i) == Ok(a + b)
  {
  }

  lemma {:induction false} ChildrenRoundTrip(n: HNode, i: nat, rest: seq<Token>)
    requires NodeSized(n) && NodeSaveable(n) && n.children.Children? && i <= |n.children.nodes|
    ensures EncodeChildren(n, i).Ok?
    ensures DecodeChildren(EncodeChildren(n, i).value + rest, |n.children.nodes| - i) == Ok(Parsed(CanonChildren(n, i), rest))
    decreases n, 0, |n.children.nodes| - i
  {
    if i < |n.children.nodes| {
      ChildOk(n, i);
      var c := n.children.nodes[i].value;
      ChildrenRoundTrip(n, i + 1, rest);
      var b := EncodeChildren(n, i + 1).value;
      NodeRoundTrip(c, b + rest);
      ChildrenCons(n, i, EncodeNode(c).value, b, rest);
    } else {
      ChildrenEnd(n, i, rest);
    }
  }

  /** The children from the `i`-th on read back, once the `i`-th child and
      those after it do. */
  lemma ChildrenCons(n: HNode, i: nat, a: seq<Token>, b: seq<Token>, rest: seq<Token>)
    requires n.children.Children? && i < |n.children.nodes| && n.children.nodes[i].Some?
    requires EncodeNode(n.children.nodes[i].value) == Ok(a) && EncodeChildren(n, i + 1) == Ok(b)
    requires DecodeNode(a + (b + rest)) == Ok(Parsed(CanonNode(n.children.nodes[i].value), b + rest))
    requires DecodeChildren(b + rest, |n.children.nodes| - i - 1) == Ok(Parsed(CanonChildren(n, i + 1), rest))
    ensures EncodeChildren(n, i) == Ok(a + b)
    ensures DecodeChildren(EncodeChildren(n, i).value + rest, |n.children.nodes| - i) == Ok(Parsed(CanonChildren(n, i), rest))
  {
    EncodeChildIs(n, i, a, b);
    AppendAssoc(a, b, rest);
    ChildStep(n, i, a + (b + rest), b + rest, rest);
  }

  lemma ChildrenEnd(n: HNode, i: nat, rest: seq<Token>)
    requires n.children.Children? && i == |n.children.nodes|
    ensures EncodeChildren(n, i) == Ok([])
    ensures DecodeChildren(EncodeChildren(n, i).value + rest, 0) == Ok(Parsed(CanonChildren(n, i), rest))
  {
    assert [] + rest == rest;
  }

  /** Every child of a node that can be written is there and can be
      written too. */
  lemma ChildOk(n: HNode, i: nat)
    requires NodeSized(n) && NodeSaveable(n) && n.children.Children? && i < |n.children.nodes|
    ensures n.children.nodes[i].Some?
    ensures NodeSized(n.children.nodes[i].value) && NodeSaveable(n.children.nodes[i].value)
  {
  }

  /** One child read back: the child's canonical form, then the rest. */
  lemma ChildStep(n: HNode, i: nat, s: seq<Token>, u: seq<Token>, rest: seq<Token>)
    requires n.children.Children? && i < |n.children.nodes| && n.children.nodes[i].Some?
    requires DecodeNode(s) == Ok(Parsed(CanonNode(n.children.nodes[i].value), u))
    requires DecodeChildren(u, |n.children.nodes| - i - 1) == Ok(Parsed(CanonChildren(n, i + 1), rest))
    ensures DecodeChildren(s, |n.children.nodes| - i) == Ok(Parsed(CanonChildren(n, i), rest))
  {
  }

  /** A node is written exactly when it has a filter that can be written
      and every child it points to is there and can be written; otherwise
      the writer throws. */
  lemma {:induction false} NodeSavedIffSaveable(n: HNode)
    ensures EncodeNode(n).Ok? <==> NodeSaveable(n)
    decreases n, 1
  {
    if n.filter.Some? {
      FiltSavedIffSaveable(n.filter.value);
      if n.children.Children? {
        ChildrenSavedIffSaveable(n, 0);
      }
    }
  }

  lemma {:induction false} ChildrenSavedIffSaveable(n: HNode, i: nat)
    requires n.children.Children? && i <= |n.children.nodes|
    ensures EncodeChildren(n, i).Ok? <==>
      forall j :: i <= j < |n.children.nodes| ==> n.children.nodes[j].Some? && NodeSaveable(n.children.nodes[j].value)
    decreases n, 0, |n.children.nodes| - i
  {
    var cs := n.children.nodes;
    if i < |cs| {
      ChildrenSavedIffSaveable(n, i + 1);
      if cs[i].Some? {
        NodeSavedIffSaveable(cs[i].value);
      }
    }
  }

  /** How the tree reader proceeds after its header. */
  lemma DecodeTreeOf(t: HTree, x: seq<Token>, r: HNode, rest: seq<Token>)
    requires DecodeNode(x) == Ok(Parsed(r, rest))
    ensures DecodeTree(TreeHeader(t) + x) == Ok(Parsed(t.(root := Some(r)), rest))
  {
    assert (TreeHeader(t) + x)[6..] == x;
  }

  /** How the HIKMTree reader proceeds after the leaf count. */
  lemma DecodeHikmOf(l: int, y: seq<Token>, t: HTree, rest: seq<Token>)
    requires DecodeTree(y) == Ok(Parsed(t, rest))
    ensures DecodeHikm([Int(l)] + y) == Ok(Parsed(Hikm(l, Some(t)), rest))
  {
    assert ([Int(l)] + y)[1..] == y;
  }

  /** Loading a saved HIKMTree rebuilds it: leaf count, tree header and
      every node, with the distances of non-ELKAN filters null. */
  lemma HikmRoundTrip(h: Hikm, rest: seq<Token>)
    requires HikmSized(h) && HikmSaveable(h)
    ensures EncodeHikm(h).Ok?
    ensures DecodeHikm(EncodeHikm(h).value + rest) == Ok(Parsed(CanonHikm(h), rest))
  {
    var t := h.tree.value;
    var r := t.root.value;
    NodeRoundTrip(r, rest);
    var x := EncodeNode(r).value;
    DecodeTreeOf(t, x + rest, CanonNode(r), rest);
    assert EncodeHikm(h) == Ok([Int(h.leaves)] + (TreeHeader(t) + x));
    AppendAssoc([Int(h.leaves)], TreeHeader(t) + x, rest);
    AppendAssoc(TreeHeader(t), x, rest);
    DecodeHikmOf(h.leaves, TreeHeader(t) + (x + rest), t.(root := Some(CanonNode(r))), rest);
  }

  /** Saving an HIKMTree succeeds exactly when nothing the writers
      dereference is null. */
  lemma HikmSavedIffSaveable(h: Hikm)
    ensures EncodeHikm(h).Ok? <==> HikmSaveable(h)
    ensures h.tree.None? ==> EncodeHikm(h) == Err(NullTree)
    ensures h.tree.Some? && h.tree.value.root.None? ==> EncodeHikm(h) == Err(NullRoot)
  {
    if h.tree.Some? && h.tree.value.root.Some? {
      NodeSavedIffSaveable(h.tree.value.root.value);
    }
  }
}
