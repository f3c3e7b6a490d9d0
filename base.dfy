/** Vocabulary shared by the inverted file and the vocabulary-tree models:
    optional values, results with an error, and typed stream fields. */
module Base {

  datatype Option<T> = None | Some(value: T)

  datatype Result<T, E> = Ok(value: T) | Err(error: E)

  /** One field of a binary stream. Only the order and the kind of the fields
      is modelled, not their byte layout. */
  datatype Token = Nat(n: nat) | Int(i: int) | Real(r: real) | Flag(b: bool)

  /** 2^32: the modulus of C++ `unsigned int` arithmetic. */
  const U32: nat := 0x1_0000_0000

  function Pow(b: nat, e: nat): nat
  {
    if e == 0 then 1 else b * Pow(b, e - 1)
  }

  /** A decoded value and the tokens after it. */
  datatype Parsed<T> = Parsed(value: T, rest: seq<Token>)

  /** Concatenated stream pieces regroup freely. */
  lemma AppendAssoc(a: seq<Token>, b: seq<Token>, c: seq<Token>)
    ensures (a + b) + c == a + (b + c)
  {
  }

  /** Reading one field of the expected kind; `e` is the error when the
      stream has ended or holds a field of another kind. */
  function ReadNat<E>(s: seq<Token>, e: E): (r: Result<Parsed<nat>, E>)
    ensures r.Ok? <==> |s| > 0 && s[0].Nat?
    ensures r.Ok? ==> r.value == Parsed(s[0].n, s[1..])
  {
    if |s| > 0 && s[0].Nat? then Ok(Parsed(s[0].n, s[1..])) else Err(e)
  }

  function ReadInt<E>(s: seq<Token>, e: E): (r: Result<Parsed<int>, E>)
    ensures r.Ok? <==> |s| > 0 && s[0].Int?
    ensures r.Ok? ==> r.value == Parsed(s[0].i, s[1..])
  {
    if |s| > 0 && s[0].Int? then Ok(Parsed(s[0].i, s[1..])) else Err(e)
  }

  function ReadReal<E>(s: seq<Token>, e: E): (r: Result<Parsed<real>, E>)
    ensures r.Ok? <==> |s| > 0 && s[0].Real?
    ensures r.Ok? ==> r.value == Parsed(s[0].r, s[1..])
  {
    if |s| > 0 && s[0].Real? then Ok(Parsed(s[0].r, s[1..])) else Err(e)
  }

  function ReadFlag<E>(s: seq<Token>, e: E): (r: Result<Parsed<bool>, E>)
    ensures r.Ok? <==> |s| > 0 && s[0].Flag?
    ensures r.Ok? ==> r.value == Parsed(s[0].b, s[1..])
  {
    if |s| > 0 && s[0].Flag? then Ok(Parsed(s[0].b, s[1..])) else Err(e)
  }

  /** A field written as a token reads back as its value, and the stream
      goes on with what followed it. */
  lemma ReadBack<E>(n: nat, i: int, x: real, b: bool, rest: seq<Token>, e: E)
    ensures ReadNat([Nat(n)] + rest, e) == Ok(Parsed(n, rest))
    ensures ReadInt([Int(i)] + rest, e) == Ok(Parsed(i, rest))
    ensures ReadReal([Real(x)] + rest, e) == Ok(Parsed(x, rest))
    ensures ReadFlag([Flag(b)] + rest, e) == Ok(Parsed(b, rest))
  {
    assert ([Nat(n)] + rest)[1..] == rest;
    assert ([Int(i)] + rest)[1..] == rest;
    assert ([Real(x)] + rest)[1..] == rest;
    assert ([Flag(b)] + rest)[1..] == rest;
  }

  /** An ended stream, or a field of another kind, is the reader's error. */
  lemma ReadWrongKind<E>(t: Token, rest: seq<Token>, e: E)
    ensures ReadNat([], e) == Err(e) && ReadInt([], e) == Err(e)
    ensures ReadReal([], e) == Err(e) && ReadFlag([], e) == Err(e)
    ensures !t.Nat? ==> ReadNat([t] + rest, e) == Err(e)
    ensures !t.Int? ==> ReadInt([t] + rest, e) == Err(e)
    ensures !t.Real? ==> ReadReal([t] + rest, e) == Err(e)
    ensures !t.Flag? ==> ReadFlag([t] + rest, e) == Err(e)
  {
  }
}
