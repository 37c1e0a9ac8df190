/**
 Arrays of any element type. The array calls take the element encoder or decoder
 as a function pointer, and here they take it as a function. The arrays of
 numbers and of structs that occur in struct fields are instances.
 */
module Arrays {
  import opened Words
  import opened Gobber
  import opened Wire

  // ---------------------------------------------------------------- the start of an array

  datatype StartDec = StartFail | Start(id: int, len: u64, rest: bytes)

  function EncArrayStart(id: TypeId, n: u64): bytes {
    [BaseType(GLME_ARRAY)] + (EncType(id) + EncU(n))
  }

  function DecArrayStart(s: bytes): (r: StartDec)
    ensures r.Start? ==> |r.rest| < |s|
  {
    if |s| == 0 || s[0] != BaseType(GLME_ARRAY) then StartFail
    else
      match DecU(s[1..])
      case Short(_) => StartFail
      case Got(u, t) =>
        match DecU(t)
        case Short(_) => StartFail
        case Got(n, rest) => Start(TypeOfWord(u), n, rest)
  }

  lemma {:induction false} ArrayStartRoundTrip(id: TypeId, n: u64, rest: bytes)
    ensures DecArrayStart(EncArrayStart(id, n) + rest) == Start(id, n, rest)
    ensures var d := DecU(EncArrayStart(id, n) + rest); d.Got? && TypeOfWord(d.v) == GLME_ARRAY
  {
    hide DecU, EncU, TypeOfWord;
    var s := EncArrayStart(id, n) + rest;
    assert s[1..] == EncType(id) + (EncU(n) + rest);
    TypeRoundTrip(id, EncU(n) + rest);
    UnsignedRoundTrip(n, rest);
    assert s == EncType(GLME_ARRAY) + s[1..];
    TypeRoundTrip(GLME_ARRAY, s[1..]);
  }

  // ---------------------------------------------------------------- the element loops

  /** The outcome of an element decoder, and of the loop over all elements. */
  datatype ElementDec<T> = NoElement | AnElement(x: T, rest: bytes)
  datatype ElementsDec<T> = NoElements | Elements(xs: seq<T>, rest: bytes)

  /** `glme_encode_array_data`. */
  function EncElements<T>(enc: T --> bytes, xs: seq<T>): bytes
    requires forall x | x in xs :: enc.requires(x)
  {
    if xs == [] then [] else enc(xs[0]) + EncElements(enc, xs[1..])
  }

  /** `glme_decode_array_data`. */
  function DecElements<T>(dec: bytes -> ElementDec<T>, n: nat, s: bytes): (r: ElementsDec<T>)
    ensures r.Elements? ==> |r.xs| == n
  {
    if n == 0 then Elements([], s)
    else
      match dec(s)
      case NoElement => NoElements
      case AnElement(x, t) =>
        match DecElements(dec, n - 1, t)
        case NoElements => NoElements
        case Elements(xs, rest) => Elements([x] + xs, rest)
  }

  function Map<T, U>(f: T -> U, xs: seq<T>): (ys: seq<U>)
    ensures |ys| == |xs|
  {
    seq(|xs|, i requires 0 <= i < |xs| => f(xs[i]))
  }

  /** If the element decoder makes `see(x)` of every element `x` that it knows, and refuses the others,
      then the loop makes the same of all elements in order, or refuses. */
  lemma {:induction false} ElementsRead<T, U>(enc: T --> bytes, dec: bytes -> ElementDec<U>, knows: T -> bool,
                                              see: T -> U, xs: seq<T>, rest: bytes)
    requires forall x | x in xs :: enc.requires(x)
    requires forall x, t | x in xs :: dec(enc(x) + t) == if knows(x) then AnElement(see(x), t) else NoElement
    ensures DecElements(dec, |xs|, EncElements(enc, xs) + rest)
         == if forall x | x in xs :: knows(x) then Elements(Map(see, xs), rest) else NoElements
  {
    if xs == [] {
      assert EncElements(enc, xs) + rest == rest;
    } else {
      var tail := EncElements(enc, xs[1..]) + rest;
      Regroup(enc(xs[0]), EncElements(enc, xs[1..]), rest);
      ElementsRead(enc, dec, knows, see, xs[1..], rest);
      assert xs == [xs[0]] + xs[1..];
      assert dec(enc(xs[0]) + tail) == if knows(xs[0]) then AnElement(see(xs[0]), tail) else NoElement;
      assert Map(see, xs) == [see(xs[0])] + Map(see, xs[1..]);
    }
  }

  lemma {:induction false} OneMore(k: nat, n: nat)
    ensures k * (n + 1) == k * n + k
  {
  }

  /** Elements of `low` to `high` bytes each. */
  lemma {:induction false} ElementsLength<T>(enc: T --> bytes, xs: seq<T>, low: nat, high: nat)
    requires forall x | x in xs :: enc.requires(x) && low <= |enc(x)| <= high
    ensures low * |xs| <= |EncElements(enc, xs)| <= high * |xs|
  {
    if xs != [] {
      ElementsLength(enc, xs[1..], low, high);
      OneMore(low, |xs| - 1);
      OneMore(high, |xs| - 1);
    }
  }

  // ---------------------------------------------------------------- whole arrays

  datatype ArrayDec<T> = NoArray | AnArray(id: int, len: nat, xs: seq<T>, rest: bytes)

  /** `glme_encode_array`. */
  function EncArray<T>(id: TypeId, enc: T --> bytes, xs: seq<T>): bytes
    requires |xs| < TWO_64 && forall x | x in xs :: enc.requires(x)
  {
    EncArrayStart(id, |xs|) + EncElements(enc, xs)
  }

  /** `glme_decode_array_start` and `glme_decode_array_data`. */
  function DecArrayOf<T>(dec: bytes -> ElementDec<T>, s: bytes): ArrayDec<T> {
    match DecArrayStart(s)
    case StartFail => NoArray
    case Start(id, n, t) =>
      match DecElements(dec, n, t)
      case NoElements => NoArray
      case Elements(xs, rest) => AnArray(id, n, xs, rest)
  }

  /** If the element codec is inverse with exact consumption, so is the array codec: the type id, the
      number of elements and all elements in order come back, and nothing more is read. */
  lemma {:induction false} ArrayRoundTrip<T>(id: TypeId, enc: T --> bytes, dec: bytes -> ElementDec<T>,
                                             xs: seq<T>, rest: bytes)
    requires |xs| < TWO_64 && forall x | x in xs :: enc.requires(x)
    requires forall x, t | x in xs :: dec(enc(x) + t) == AnElement(x, t)
    ensures DecArrayOf(dec, EncArray(id, enc, xs) + rest) == AnArray(id, |xs|, xs, rest)
  {
    hide DecU, EncU, DecArrayStart, EncArrayStart;
    Regroup(EncArrayStart(id, |xs|), EncElements(enc, xs), rest);
    ArrayStartRoundTrip(id, |xs|, EncElements(enc, xs) + rest);
    ElementsRead(enc, dec, x => true, x => x, xs, rest);
    assert Map(x => x, xs) == xs;
  }
}
