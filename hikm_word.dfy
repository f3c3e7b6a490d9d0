/** Word composition of the vocabulary tree: the per-level cluster indices
    of a descriptor's path (its digits, least significant first) are folded
    into one visual-word id, a mixed-radix number in base K, in C++
    `unsigned int` arithmetic. */
module HikmWord {
  import opened Base

  /** The number the digits stand for: digit i weighs K^i. */
  function Compose(digits: seq<nat>, k: nat): nat
  {
    if |digits| == 0 then 0 else digits[0] + k * Compose(digits[1..], k)
  }

  /** The digits of `w` in base `k`, `n` of them, least significant first. */
  function Decompose(w: nat, k: nat, n: nat): (r: seq<nat>)
    requires k > 0
    ensures |r| == n
    decreases n
  {
    if n == 0 then [] else [w % k] + Decompose(w / k, k, n - 1)
  }

  /** Digits below `k`: what every level of a tree with `k` clusters
      yields. */
  predicate Digits(digits: seq<nat>, k: nat)
  {
    forall i :: 0 <= i < |digits| ==> digits[i] < k
  }

  /** Appending a digit adds it at weight K^n. */
  lemma {:induction false} ComposeSnoc(digits: seq<nat>, d: nat, k: nat)
    ensures Compose(digits + [d], k) == Compose(digits, k) + d * Pow(k, |digits|)
  {
    if |digits| == 0 {
      assert digits + [d] == [d];
      assert [d][1..] == [];
    } else {
      var t := digits[1..];
      assert (digits + [d])[1..] == t + [d];
      ComposeSnoc(t, d, k);
      var c, p := Compose(t, k), Pow(k, |t|);
      assert Compose(digits + [d], k) == digits[0] + k * (c + d * p);
      Distrib(k, c, d * p);
      MulSwap(k, d, p);
      assert Pow(k, |digits|) == k * p;
    }
  }

  lemma MulSwap(k: nat, d: nat, p: nat)
    ensures k * (d * p) == d * (k * p)
  {
  }

  lemma MulLeq(a: nat, b: nat, c: nat)
    requires a <= b
    ensures c * a <= c * b
  {
  }

  /** Digits below K compose to at most K^n - 1: every word of a tree of
      depth n fits below K^n. */
  lemma {:induction false} ComposeBound(digits: seq<nat>, k: nat)
    requires Digits(digits, k)
    ensures Compose(digits, k) < Pow(k, |digits|)
  {
    if |digits| > 0 {
      var rest := digits[1..];
      assert Digits(rest, k);
      ComposeBound(rest, k);
      var c, p := Compose(rest, k), Pow(k, |rest|);
      MulLeq(c, p - 1, k);
      Distrib(k, p - 1, 1);
      assert Compose(digits, k) == digits[0] + k * c;
      assert Pow(k, |digits|) == k * p;
    }
  }

  lemma DivModOf(d: nat, w: nat, k: nat)
    requires d < k
    ensures (d + k * w) % k == d && (d + k * w) / k == w
  {
    var x := d + k * w;
    var q, m := x / k, x % k;
    assert x == k * q + m;
    if q > w {
      MulLeq(w + 1, q, k);
    } else if q < w {
      MulLeq(q + 1, w, k);
    }
  }

  /** Decomposing a composed word gives its digits back: the composition
      loses nothing when every digit is below K. */
  lemma {:induction false} DecomposeCompose(digits: seq<nat>, k: nat)
    requires k > 0 && Digits(digits, k)
    ensures Decompose(Compose(digits, k), k, |digits|) == digits
  {
    if |digits| > 0 {
      var rest := digits[1..];
      assert Digits(rest, k);
      DivModOf(digits[0], Compose(rest, k), k);
      DecomposeCompose(rest, k);
      assert digits == [digits[0]] + rest;
    }
  }

  /** Two paths through a tree with K clusters per level name the same word
      only when they are the same path. */
  lemma ComposeInjective(a: seq<nat>, b: seq<nat>, k: nat)
    requires k > 0 && |a| == |b| && Digits(a, k) && Digits(b, k)
    requires Compose(a, k) == Compose(b, k)
    ensures a == b
  {
    DecomposeCompose(a, k);
    DecomposeCompose(b, k);
  }

  lemma ModAddMul(a: nat, d: nat, p: nat, m: nat)
    requires m > 0
    ensures (a % m + (d * (p % m)) % m) % m == (a + d * p) % m
  {
    assert d * (p % m) == p % m * d && d * p == p * d;
    ModMul(p, d, m);
    ModAdd(a, d * p, m);
  }

  lemma ModAdd(a: nat, b: nat, m: nat)
    requires m > 0
    ensures (a % m + b % m) % m == (a + b) % m
  {
    DivModSplit(a, m);
    DivModSplit(b, m);
    var x, y, qa, qb := a % m, b % m, a / m, b / m;
    Distrib(m, qa, qb);
    assert a + b == (x + y) + m * (qa + qb);
    ModOfMultiple(x + y, qa + qb, m);
  }

  lemma DivModSplit(a: nat, m: nat)
    requires m > 0
    ensures a == m * (a / m) + a % m
  {
  }

  lemma Distrib(m: nat, p: nat, q: nat)
    ensures m * (p + q) == m * p + m * q
  {
  }

  /** Adding a multiple of `m` does not change a remainder. */
  lemma ModOfMultiple(a: nat, j: nat, m: nat)
    requires m > 0
    ensures (a + m * j) % m == a % m
  {
    var q, r := a / m, a % m;
    DivModOf(r, q + j, m);
    assert a + m * j == r + m * (q + j);
  }

  lemma ModMul(p: nat, k: nat, m: nat)
    requires m > 0
    ensures (p % m * k) % m == (p * k) % m
  {
    var y := p % m;
    assert p * k == y * k + m * ((p / m) * k) by {
      assert p == m * (p / m) + y;
    }
    ModOfMultiple(y * k, (p / m) * k, m);
  }

  /** `push(data, unsigned& word)`: the word is the digits' mixed-radix
      number, both the running word and the running weight wrapping modulo
      2^32 as `unsigned int` does. */
  method Push(digits: seq<nat>, k: nat) returns (word: nat)
    requires k < U32 && forall i :: 0 <= i < |digits| ==> digits[i] < U32
    ensures word == Compose(digits, k) % U32
  {
    word := 0;
    var p: nat := 1;
    assert digits[..0] == [];
    for i := 0 to |digits|
      invariant word == Compose(digits[..i], k) % U32
      invariant p == Pow(k, i) % U32
    {
      ComposeSnoc(digits[..i], digits[i], k);
      assert digits[..i + 1] == digits[..i] + [digits[i]];
      ModAddMul(Compose(digits[..i], k), digits[i], Pow(k, i), U32);
      ModMul(Pow(k, i), k, U32);
      assert Pow(k, i + 1) == Pow(k, i) * k;
      word := (word + (digits[i] * p) % U32) % U32;
      p := (p * k) % U32;
    }
    assert digits[..|digits|] == digits;
  }

  /** `maxWord`: K^depth - 1 in `unsigned int`, the largest word of a tree
      with K clusters and the given depth. The power must fit the type for
      the conversion from `double` to be defined. */
  function MaxWord(k: nat, depth: nat): (r: nat)
    requires Pow(k, depth) < U32
    ensures r < U32
  {
    (Pow(k, depth) + U32 - 1) % U32
  }

  /** When the tree's words fit `unsigned int`, pushing a path of depth
      digits below K yields its exact mixed-radix number, which never
      exceeds maxWord. */
  lemma PushWithinMaxWord(digits: seq<nat>, k: nat)
    requires k > 0 && Digits(digits, k) && Pow(k, |digits|) < U32
    ensures Compose(digits, k) % U32 == Compose(digits, k)
    ensures Compose(digits, k) <= MaxWord(k, |digits|)
    ensures MaxWord(k, |digits|) == Pow(k, |digits|) - 1
  {
    ComposeBound(digits, k);
    PowPositive(k, |digits|);
  }

  lemma {:induction false} PowPositive(k: nat, n: nat)
    requires k > 0
    ensures Pow(k, n) > 0
  {
    if n > 0 {
      PowPositive(k, n - 1);
    }
  }
}
