/** Ordered lists keyed by a natural number, as the inverted file keeps
    them: posting lists keyed by document, query histograms and score lists
    keyed by id. `lower_bound` finds a key's place; a record is inserted
    there only when its key is absent. */
module PostingList {
  import opened Entries

  /** Strictly ascending by key: ordered and without two records of one key. */
  predicate SortedBy<T>(s: seq<T>, key: T -> nat)
  {
    forall i, j :: 0 <= i < j < |s| ==> key(s[i]) < key(s[j])
  }

  function Keys<T>(s: seq<T>, key: T -> nat): set<nat>
  {
    set i | 0 <= i < |s| :: key(s[i])
  }

  /** The index of the first record whose key is not less than `k`
      (|s| when there is none): what std::lower_bound returns. */
  function LowerBoundPos<T>(s: seq<T>, key: T -> nat, k: nat): (i: nat)
    ensures i <= |s|
    ensures forall j :: 0 <= j < i ==> key(s[j]) < k
  {
    if |s| == 0 || k <= key(s[0]) then 0 else 1 + LowerBoundPos(s[1..], key, k)
  }

  /** Whether a record with key `k` sits at its lower bound. */
  predicate Present<T>(s: seq<T>, key: T -> nat, k: nat)
  {
    var i := LowerBoundPos(s, key, k);
    i < |s| && key(s[i]) == k
  }

  /** `s` with `item` inserted at the lower bound of `k` unless a record
      with key `k` is already there. */
  function InsertAbsent<T>(s: seq<T>, key: T -> nat, k: nat, item: T): (r: seq<T>)
    ensures LowerBoundPos(s, key, k) < |r|
  {
    var i := LowerBoundPos(s, key, k);
    if i < |s| && key(s[i]) == k then s else s[..i] + [item] + s[i..]
  }

  /** The test that follows std::lower_bound: the key is absent exactly
      when the search ran off the end or stopped at a larger key. */
  lemma LowerBoundMiss<T>(s: seq<T>, key: T -> nat, k: nat)
    requires SortedBy(s, key)
    ensures var i := LowerBoundPos(s, key, k);
      (i == |s| || k < key(s[i])) <==> !Present(s, key, k)
  {
    LowerBoundPosSplits(s, key, k);
  }

  /** Past a first record with a smaller key, the lower bound and presence
      are those of the rest of the list. */
  lemma LowerBoundPast<T>(s: seq<T>, key: T -> nat, k: nat)
    requires |s| > 0 && key(s[0]) < k
    ensures LowerBoundPos(s, key, k) == 1 + LowerBoundPos(s[1..], key, k)
    ensures Present(s, key, k) == Present(s[1..], key, k)
  {
    var j := LowerBoundPos(s[1..], key, k);
    if j < |s| - 1 {
      assert s[1 + j] == s[1..][j];
    }
  }

  /** Past a first record with a smaller key, the insertion happens in the
      rest of the list. */
  lemma InsertAbsentPast<T>(s: seq<T>, key: T -> nat, k: nat, item: T)
    requires |s| > 0 && key(s[0]) < k
    ensures InsertAbsent(s, key, k, item) == [s[0]] + InsertAbsent(s[1..], key, k, item)
  {
    LowerBoundPast(s, key, k);
    var t := s[1..];
    var j := LowerBoundPos(t, key, k);
    if Present(t, key, k) {
      assert s == [s[0]] + t;
    } else {
      assert s[..1 + j] == [s[0]] + t[..j];
      assert s[1 + j..] == t[j..];
    }
  }

  /** Any index splitting `s` into keys below `k` and keys not below `k` is
      the lower bound. */
  lemma {:induction false} LowerBoundPosUnique<T>(s: seq<T>, key: T -> nat, k: nat, i: nat)
    requires i <= |s|
    requires forall j :: 0 <= j < i ==> key(s[j]) < k
    requires forall j :: i <= j < |s| ==> k <= key(s[j])
    ensures i == LowerBoundPos(s, key, k)
  {
    if i > 0 {
      assert key(s[0]) < k;
      LowerBoundPosUnique(s[1..], key, k, i - 1);
    }
  }

  /** On a sorted list every key from the lower bound on is at least `k`. */
  lemma {:induction false} LowerBoundPosSplits<T>(s: seq<T>, key: T -> nat, k: nat)
    requires SortedBy(s, key)
    ensures forall j :: LowerBoundPos(s, key, k) <= j < |s| ==> k <= key(s[j])
  {
    if |s| > 0 && key(s[0]) < k {
      LowerBoundPosSplits(s[1..], key, k);
      forall j | LowerBoundPos(s, key, k) <= j < |s|
        ensures k <= key(s[j])
      {
        assert s[j] == s[1..][j - 1];
      }
    }
  }

  /** std::lower_bound: binary search for the first record whose key is not
      less than `k`. */
  method LowerBound<T>(s: seq<T>, key: T -> nat, k: nat) returns (i: nat)
    requires SortedBy(s, key)
    ensures i == LowerBoundPos(s, key, k)
    ensures forall j :: 0 <= j < i ==> key(s[j]) < k
    ensures forall j :: i <= j < |s| ==> k <= key(s[j])
  {
    var lo, hi := 0, |s|;
    while lo < hi
      invariant 0 <= lo <= hi <= |s|
      invariant forall j :: 0 <= j < lo ==> key(s[j]) < k
      invariant forall j :: hi <= j < |s| ==> k <= key(s[j])
    {
      var mid := (lo + hi) / 2;
      if key(s[mid]) < k {
        lo := mid + 1;
      } else {
        hi := mid;
      }
    }
    i := lo;
    LowerBoundPosUnique(s, key, k, i);
  }

  /** On a sorted list, a key is present at its lower bound exactly when
      some record carries it. */
  lemma PresentIffKey<T>(s: seq<T>, key: T -> nat, k: nat)
    requires SortedBy(s, key)
    ensures Present(s, key, k) <==> k in Keys(s, key)
  {
    var i := LowerBoundPos(s, key, k);
    LowerBoundPosSplits(s, key, k);
    if k in Keys(s, key) {
      var j :| 0 <= j < |s| && key(s[j]) == k;
      assert i <= j;
      assert k <= key(s[i]);
      assert i == j;
    }
  }

  /** Inserting at the lower bound only when absent keeps a list sorted and
      unique and puts the record of `k` at the lower bound. */
  lemma InsertAbsentSorted<T>(s: seq<T>, key: T -> nat, k: nat, item: T)
    requires SortedBy(s, key)
    requires key(item) == k
    ensures SortedBy(InsertAbsent(s, key, k, item), key)
    ensures key(InsertAbsent(s, key, k, item)[LowerBoundPos(s, key, k)]) == k
  {
    var r, i := InsertAbsent(s, key, k, item), LowerBoundPos(s, key, k);
    LowerBoundPosSplits(s, key, k);
    if !Present(s, key, k) {
      forall a, b | 0 <= a < b < |r|
        ensures key(r[a]) < key(r[b])
      {
        if b < i {
          assert r[a] == s[a] && r[b] == s[b];
        } else if b == i {
          assert r[a] == s[a];
        } else if a < i {
          assert r[a] == s[a] && r[b] == s[b - 1];
        } else if a == i {
          assert r[b] == s[b - 1];
          if b - 1 > i {
            assert key(s[i]) < key(s[b - 1]);
          }
        } else {
          assert r[a] == s[a - 1] && r[b] == s[b - 1];
        }
      }
    }
  }

  /** The keys after the insertion are the keys before plus `k`. */
  lemma InsertAbsentKeys<T>(s: seq<T>, key: T -> nat, k: nat, item: T)
    requires key(item) == k
    requires Present(s, key, k) ==> k in Keys(s, key)
    ensures Keys(InsertAbsent(s, key, k, item), key) == Keys(s, key) + {k}
  {
    var r, i := InsertAbsent(s, key, k, item), LowerBoundPos(s, key, k);
    if !Present(s, key, k) {
      forall x | x in Keys(r, key) ensures x in Keys(s, key) + {k} {
        var j :| 0 <= j < |r| && key(r[j]) == x;
        if j < i { assert r[j] == s[j]; }
        else if j > i { assert r[j] == s[j - 1]; }
      }
      forall x | x in Keys(s, key) + {k} ensures x in Keys(r, key) {
        if x == k {
          assert key(r[i]) == k;
        } else {
          var j :| 0 <= j < |s| && key(s[j]) == x;
          if j < i { assert r[j] == s[j]; }
          else { assert r[j + 1] == s[j]; }
        }
      }
    }
  }

  /** Replacing a record by one of the same key changes neither order nor
      keys. */
  lemma UpdateSameKey<T>(s: seq<T>, key: T -> nat, i: nat, v: T)
    requires i < |s| && key(v) == key(s[i])
    ensures SortedBy(s, key) ==> SortedBy(s[i := v], key)
    ensures Keys(s[i := v], key) == Keys(s, key)
  {
    var r := s[i := v];
    assert forall j :: 0 <= j < |r| ==> key(r[j]) == key(s[j]);
    assert Keys(r, key) == Keys(s, key);
  }

  // Posting lists ------------------------------------------------------

  function SumCounts(ps: seq<WordDoc>): nat
  {
    if |ps| == 0 then 0 else SumCounts(ps[..|ps| - 1]) + ps[|ps| - 1].count
  }

  lemma {:induction false} SumCountsAppend(a: seq<WordDoc>, b: seq<WordDoc>)
    ensures SumCounts(a + b) == SumCounts(a) + SumCounts(b)
  {
    if |b| == 0 {
      assert a + b == a;
    } else {
      assert (a + b)[|a + b| - 1] == b[|b| - 1];
      assert (a + b)[..|a + b| - 1] == a + b[..|b| - 1];
      SumCountsAppend(a, b[..|b| - 1]);
    }
  }

  lemma SumCountsUpdate(ps: seq<WordDoc>, i: nat, x: WordDoc)
    requires i < |ps|
    ensures SumCounts(ps[i := x]) + ps[i].count == SumCounts(ps) + x.count
  {
    assert ps == ps[..i] + [ps[i]] + ps[i + 1..];
    assert ps[i := x] == ps[..i] + [x] + ps[i + 1..];
    SumCountsAppend(ps[..i] + [ps[i]], ps[i + 1..]);
    SumCountsAppend(ps[..i] + [x], ps[i + 1..]);
    SumCountsAppend(ps[..i], [ps[i]]);
    SumCountsAppend(ps[..i], [x]);
  }

  /** One occurrence of the word in document `d`, by walking the ordered
      posting list: a posting of `d` with count 1 is inserted before the
      first posting of a later document, or the count of the posting of `d`
      goes up by one. */
  function Bump(ps: seq<WordDoc>, d: nat): seq<WordDoc>
  {
    if |ps| == 0 || d < ps[0].doc then [WordDoc(1, 0.0, d)] + ps
    else if d == ps[0].doc then [ps[0].(count := ps[0].count + 1)] + ps[1..]
    else [ps[0]] + Bump(ps[1..], d)
  }

  /** What `fill` does for one occurrence computes Bump: the posting of `d`
      is created (count 0, value 0) at its lower bound if absent, then its
      count goes up by one. */
  lemma {:induction false} BumpIsInsert(ps: seq<WordDoc>, d: nat)
    ensures var s := InsertAbsent(ps, DocOf, d, WordDoc(0, 0.0, d));
      var i := LowerBoundPos(ps, DocOf, d);
      Bump(ps, d) == s[i := s[i].(count := s[i].count + 1)]
  {
    if |ps| == 0 || d <= ps[0].doc {
      BumpHere(ps, d);
    } else {
      var item := WordDoc(0, 0.0, d);
      LowerBoundPast(ps, DocOf, d);
      InsertAbsentPast(ps, DocOf, d, item);
      BumpIsInsert(ps[1..], d);
      var t := InsertAbsent(ps[1..], DocOf, d, item);
      var j := LowerBoundPos(ps[1..], DocOf, d);
      UpdateCons(ps[0], t, j, t[j].(count := t[j].count + 1));
    }
  }

  lemma BumpHere(ps: seq<WordDoc>, d: nat)
    requires |ps| == 0 || d <= ps[0].doc
    ensures var s := InsertAbsent(ps, DocOf, d, WordDoc(0, 0.0, d));
      var i := LowerBoundPos(ps, DocOf, d);
      Bump(ps, d) == s[i := s[i].(count := s[i].count + 1)]
  {
    var s := InsertAbsent(ps, DocOf, d, WordDoc(0, 0.0, d));
    if |ps| == 0 || d < ps[0].doc {
      assert s == [WordDoc(0, 0.0, d)] + ps;
    } else {
      assert s == ps;
      assert ps == [ps[0]] + ps[1..];
    }
  }

  /** Updating past a first element updates the rest. */
  lemma UpdateCons<T>(x: T, t: seq<T>, j: nat, v: T)
    requires j < |t|
    ensures ([x] + t)[1 + j := v] == [x] + t[j := v]
  {
  }

  /** The lower_bound insertion followed by the count update keeps the
      posting list sorted and unique and names `d` afterwards. */
  lemma InsertBumpSorted(ps: seq<WordDoc>, d: nat)
    requires SortedBy(ps, DocOf)
    ensures var s := InsertAbsent(ps, DocOf, d, WordDoc(0, 0.0, d));
      var i := LowerBoundPos(ps, DocOf, d);
      SortedBy(s[i := s[i].(count := s[i].count + 1)], DocOf) &&
      Keys(s[i := s[i].(count := s[i].count + 1)], DocOf) == Keys(ps, DocOf) + {d}
  {
    var item := WordDoc(0, 0.0, d);
    var s, i := InsertAbsent(ps, DocOf, d, item), LowerBoundPos(ps, DocOf, d);
    InsertAbsentSorted(ps, DocOf, d, item);
    PresentIffKey(ps, DocOf, d);
    InsertAbsentKeys(ps, DocOf, d, item);
    UpdateSameKey(s, DocOf, i, s[i].(count := s[i].count + 1));
  }

  /** Bump keeps the posting list sorted and unique and names `d` afterwards. */
  lemma BumpSorted(ps: seq<WordDoc>, d: nat)
    requires SortedBy(ps, DocOf)
    ensures SortedBy(Bump(ps, d), DocOf)
    ensures Keys(Bump(ps, d), DocOf) == Keys(ps, DocOf) + {d}
  {
    BumpIsInsert(ps, d);
    InsertBumpSorted(ps, d);
  }

  /** Bump grows the list by one posting exactly when `d` was absent. */
  lemma BumpSize(ps: seq<WordDoc>, d: nat)
    requires SortedBy(ps, DocOf)
    ensures |Bump(ps, d)| == if d in Keys(ps, DocOf) then |ps| else |ps| + 1
    ensures Present(ps, DocOf, d) <==> d in Keys(ps, DocOf)
  {
    BumpIsInsert(ps, d);
    PresentIffKey(ps, DocOf, d);
  }

  lemma SumCountsCons(x: WordDoc, ps: seq<WordDoc>)
    ensures SumCounts([x] + ps) == x.count + SumCounts(ps)
  {
    SumCountsAppend([x], ps);
    assert [x][..0] == [];
  }

  /** Bump adds one to the total count of the word. */
  lemma {:induction false} BumpSum(ps: seq<WordDoc>, d: nat)
    ensures SumCounts(Bump(ps, d)) == SumCounts(ps) + 1
  {
    if |ps| == 0 || d < ps[0].doc {
      SumCountsCons(WordDoc(1, 0.0, d), ps);
    } else {
      assert ps == [ps[0]] + ps[1..];
      SumCountsCons(ps[0], ps[1..]);
      if d == ps[0].doc {
        SumCountsCons(ps[0].(count := ps[0].count + 1), ps[1..]);
      } else {
        BumpSum(ps[1..], d);
        SumCountsCons(ps[0], Bump(ps[1..], d));
      }
    }
  }

  /** Bump leaves every posting of another document as it was. */
  lemma {:induction false} BumpKeepsOthers(ps: seq<WordDoc>, d: nat)
    ensures forall p :: p in ps && p.doc != d ==> p in Bump(ps, d)
    ensures forall p :: p in Bump(ps, d) && p.doc != d ==> p in ps
  {
    if |ps| > 0 && d > ps[0].doc {
      BumpKeepsOthers(ps[1..], d);
      assert ps == [ps[0]] + ps[1..];
    } else if |ps| > 0 && d == ps[0].doc {
      assert ps == [ps[0]] + ps[1..];
    }
  }

  // Query histograms ---------------------------------------------------

  /** One more token of word `id` in a query, by walking the ordered
      histogram: a node of `id` with value 1 is inserted before the first
      node of a later word, or the value of the node of `id` goes up by one. */
  function Tally(ns: seq<Node>, id: nat): seq<Node>
  {
    if |ns| == 0 || id < ns[0].id then [Node(1.0, id)] + ns
    else if id == ns[0].id then [ns[0].(val := ns[0].val + 1.0)] + ns[1..]
    else [ns[0]] + Tally(ns[1..], id)
  }

  /** What `search` does for one query token computes Tally: the node of
      `id` is created with value 0 at its lower bound if absent, then its
      value goes up by one. */
  lemma {:induction false} TallyIsInsert(ns: seq<Node>, id: nat)
    ensures var s := InsertAbsent(ns, IdOf, id, Node(0.0, id));
      var i := LowerBoundPos(ns, IdOf, id);
      Tally(ns, id) == s[i := s[i].(val := s[i].val + 1.0)]
  {
    if |ns| == 0 || id <= ns[0].id {
      TallyHere(ns, id);
    } else {
      var item := Node(0.0, id);
      LowerBoundPast(ns, IdOf, id);
      InsertAbsentPast(ns, IdOf, id, item);
      TallyIsInsert(ns[1..], id);
      var t := InsertAbsent(ns[1..], IdOf, id, item);
      var j := LowerBoundPos(ns[1..], IdOf, id);
      UpdateCons(ns[0], t, j, t[j].(val := t[j].val + 1.0));
    }
  }

  lemma TallyHere(ns: seq<Node>, id: nat)
    requires |ns| == 0 || id <= ns[0].id
    ensures var s := InsertAbsent(ns, IdOf, id, Node(0.0, id));
      var i := LowerBoundPos(ns, IdOf, id);
      Tally(ns, id) == s[i := s[i].(val := s[i].val + 1.0)]
  {
    var s := InsertAbsent(ns, IdOf, id, Node(0.0, id));
    if |ns| == 0 || id < ns[0].id {
      assert s == [Node(0.0, id)] + ns;
    } else {
      assert s == ns;
      assert ns == [ns[0]] + ns[1..];
    }
  }

  function SumVals(ns: seq<Node>): real
  {
    if |ns| == 0 then 0.0 else SumVals(ns[..|ns| - 1]) + ns[|ns| - 1].val
  }

  lemma {:induction false} SumValsAppend(a: seq<Node>, b: seq<Node>)
    ensures SumVals(a + b) == SumVals(a) + SumVals(b)
  {
    if |b| == 0 {
      assert a + b == a;
    } else {
      assert (a + b)[|a + b| - 1] == b[|b| - 1];
      assert (a + b)[..|a + b| - 1] == a + b[..|b| - 1];
      SumValsAppend(a, b[..|b| - 1]);
    }
  }

  lemma SumValsUpdate(ns: seq<Node>, i: nat, x: Node)
    requires i < |ns|
    ensures SumVals(ns[i := x]) + ns[i].val == SumVals(ns) + x.val
  {
    assert ns == ns[..i] + [ns[i]] + ns[i + 1..];
    assert ns[i := x] == ns[..i] + [x] + ns[i + 1..];
    SumValsAppend(ns[..i] + [ns[i]], ns[i + 1..]);
    SumValsAppend(ns[..i] + [x], ns[i + 1..]);
    SumValsAppend(ns[..i], [ns[i]]);
    SumValsAppend(ns[..i], [x]);
  }

  /** The lower_bound insertion followed by the value update keeps the
      histogram sorted and unique and names `id` afterwards. */
  lemma InsertTallySorted(ns: seq<Node>, id: nat)
    requires SortedBy(ns, IdOf)
    ensures var s := InsertAbsent(ns, IdOf, id, Node(0.0, id));
      var i := LowerBoundPos(ns, IdOf, id);
      SortedBy(s[i := s[i].(val := s[i].val + 1.0)], IdOf) &&
      Keys(s[i := s[i].(val := s[i].val + 1.0)], IdOf) == Keys(ns, IdOf) + {id}
  {
    var item := Node(0.0, id);
    var s, i := InsertAbsent(ns, IdOf, id, item), LowerBoundPos(ns, IdOf, id);
    InsertAbsentSorted(ns, IdOf, id, item);
    PresentIffKey(ns, IdOf, id);
    InsertAbsentKeys(ns, IdOf, id, item);
    UpdateSameKey(s, IdOf, i, s[i].(val := s[i].val + 1.0));
  }

  /** Tally keeps the histogram sorted and unique by word and adds the word
      to its keys. */
  lemma TallySorted(ns: seq<Node>, id: nat)
    requires SortedBy(ns, IdOf)
    ensures SortedBy(Tally(ns, id), IdOf)
    ensures Keys(Tally(ns, id), IdOf) == Keys(ns, IdOf) + {id}
  {
    TallyIsInsert(ns, id);
    InsertTallySorted(ns, id);
  }

  lemma SumValsCons(x: Node, ns: seq<Node>)
    ensures SumVals([x] + ns) == x.val + SumVals(ns)
  {
    SumValsAppend([x], ns);
    assert [x][..0] == [];
  }

  /** Tally adds one to the total of the histogram's values. */
  lemma {:induction false} TallySum(ns: seq<Node>, id: nat)
    ensures SumVals(Tally(ns, id)) == SumVals(ns) + 1.0
  {
    if |ns| == 0 || id < ns[0].id {
      SumValsCons(Node(1.0, id), ns);
    } else {
      assert ns == [ns[0]] + ns[1..];
      SumValsCons(ns[0], ns[1..]);
      if id == ns[0].id {
        SumValsCons(ns[0].(val := ns[0].val + 1.0), ns[1..]);
      } else {
        TallySum(ns[1..], id);
        SumValsCons(ns[0], Tally(ns[1..], id));
      }
    }
  }
}
