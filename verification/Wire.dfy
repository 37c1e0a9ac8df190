/**
 What the library's elementary calls put on and take off the wire: type ids,
 scalars, byte vectors. Decoding results describe what the C routines do,
 including the signed and floating-point ones, whose underflow code is positive
 and so passes for success.
 */
module Wire {
  import opened Words
  import opened Float64
  import opened Gobber

  const GLME_INT := 2
  const GLME_UINT := 3
  const GLME_FLOAT := 4
  const GLME_VECTOR := 5
  const GLME_STRING := 6
  const GLME_ARRAY := 10
  const GLME_BASE_MAX := 15

  const GLME_E_TYPE := -3
  const GLME_E_NOMEM := -7
  const GLME_E_UFLOW := -8

  type TypeId = x: int | 0 <= x < TWO_31

  // ---------------------------------------------------------------- type ids

  function BaseType(id: TypeId): byte {
    2 * id % 256
  }

  /** A type id on the wire, with the one-byte shortcut for base types. */
  function EncType(id: TypeId): bytes {
    if id <= GLME_BASE_MAX then [BaseType(id)] else EncI(id)
  }

  /** The shortcut writes what the general signed form would. */
  lemma {:induction false} TypeShortcut(id: TypeId)
    ensures EncType(id) == EncI(id)
  {
  }

  /** What `glme_decode_type` makes of a decoded number: the id is narrowed to an `int`. */
  function TypeOfWord(u: u64): int {
    ToInt32(Unzigzag(u))
  }

  /** A type id is the signed number, whatever its size. */
  lemma {:induction false} TypeBytes(id: TypeId)
    ensures EncType(id) == EncU(2 * id)
    ensures id < 64 ==> EncType(id) == [2 * id]
  {
  }

  lemma {:induction false} TypeRoundTrip(id: TypeId, rest: bytes)
    ensures DecU(EncType(id) + rest).Got?
    ensures var d := DecU(EncType(id) + rest); d.rest == rest && TypeOfWord(d.v) == id
  {
    TypeShortcut(id);
    UnsignedRoundTrip(Zigzag(id), rest);
    ZigzagBijection(id, 0);
  }

  /** The id is the one `int` that agrees with the number in the low 32 bits. */
  lemma {:induction false} TypeIsNarrowed(u: u64)
    ensures -TWO_31 <= TypeOfWord(u) < TWO_31 && (Unzigzag(u) as int - TypeOfWord(u)) % TWO_32 == 0
  {
    hide Unzigzag;
  }

  // ---------------------------------------------------------------- scalars

  datatype Ty = TInt | TUint | TFloat

  datatype Scalar = I(i: i64) | U(u: u64) | F(f: bv64) {
    function Type(): Ty {
      match this case I(_) => TInt case U(_) => TUint case F(_) => TFloat
    }

    /** The unsigned number sent for this scalar. */
    function Word(): u64 {
      match this case I(i) => Zigzag(i) case U(u) => u case F(f) => FloatWord(f)
    }

    /** C's `elem != defval`, negated. */
    predicate EqualInC(other: Scalar) {
      match (this, other)
      case (F(x), F(y)) => IeeeEqual(x, y)
      case _ => this == other
    }
  }

  function TypeCode(ty: Ty): TypeId {
    match ty case TInt => GLME_INT case TUint => GLME_UINT case TFloat => GLME_FLOAT
  }

  function OfWord(ty: Ty, u: u64): (x: Scalar)
    ensures x.Type() == ty
  {
    match ty case TInt => I(Unzigzag(u)) case TUint => U(u) case TFloat => F(FloatOf(u))
  }

  /** All-zero memory read as a scalar. */
  function ZeroScalar(ty: Ty): (x: Scalar)
    ensures x.Type() == ty
  {
    match ty case TInt => I(0) case TUint => U(0) case TFloat => F(0)
  }

  lemma {:induction false} WordRoundTrip(x: Scalar)
    ensures OfWord(x.Type(), x.Word()) == x
  {
    match x
    case I(i) => ZigzagBijection(i, 0);
    case U(_) =>
    case F(f) => FloatRoundTrip(f);
  }

  function EncValue(x: Scalar): bytes {
    EncU(x.Word())
  }

  function EncScalar(x: Scalar): bytes {
    [BaseType(TypeCode(x.Type()))] + EncValue(x)
  }

  /** A typed scalar on the wire: the type byte, then the number. A double is sent as the number that its
      eight bytes spell in reverse. */
  lemma {:induction false} ScalarBytes(x: Scalar)
    ensures EncScalar(x) ==
            match x
            case I(i) => [4] + EncU(if i < 0 then -2 * i - 1 else 2 * i)
            case U(u) => [6] + EncU(u)
            case F(f) => [8] + EncU(FloatWord(f))
    ensures x.F? ==> BigEndian(8, FloatWord(x.f)) == Octets(Reverse(Bytes8(x.f)))
  {
    match x
    case I(i) => ZigzagBijection(i, 0);
    case U(_) =>
    case F(f) => FloatWordSpelling(f);
  }

  /** The outcome of a scalar decoder: a negative code, or a value and the unread bytes. */
  datatype SDec = SFail | SDone(x: Scalar, rest: bytes)

  /** A value decoder handed a variable holding `x0`. On underflow the unsigned one reports failure;
      the other two leave the variable and the read pointer alone and return a positive code. */
  function DecValue(ty: Ty, x0: Scalar, s: bytes): (r: SDec)
    ensures r.SDone? ==> |r.rest| <= |s|
    ensures r.SDone? && x0.Type() == ty ==> r.x.Type() == ty
  {
    match DecU(s)
    case Got(u, rest) => SDone(OfWord(ty, u), rest)
    case Short(_) => if ty == TUint then SFail else SDone(x0, s)
  }

  /** A value decoder preceded by the check of the type byte. */
  function DecScalar(ty: Ty, x0: Scalar, s: bytes): (r: SDec)
    ensures r.SDone? ==> |r.rest| < |s|
    ensures r.SDone? && x0.Type() == ty ==> r.x.Type() == ty
  {
    if |s| == 0 || s[0] != BaseType(TypeCode(ty)) then SFail else DecValue(ty, x0, s[1..])
  }

  /** What the scalar decoders make of any bytes: the type byte must be there; a number that is all there is the
      value; and if it is not, only the unsigned decoder refuses, while the others leave the variable. */
  lemma {:induction false} ScalarDecoded(ty: Ty, x0: Scalar, s: bytes)
    ensures var code := match ty case TInt => 4 case TUint => 6 case TFloat => 8;
            DecScalar(ty, x0, s) == if s == [] || s[0] != code then SFail else DecValue(ty, x0, s[1..])
    ensures DecValue(ty, x0, s) ==
            match (DecU(s), ty)
            case (Got(u, rest), TInt) => SDone(I(Unzigzag(u)), rest)
            case (Got(u, rest), TUint) => SDone(U(u), rest)
            case (Got(u, rest), TFloat) => SDone(F(FloatOf(u)), rest)
            case (Short(_), TUint) => SFail
            case (Short(_), _) => SDone(x0, s)
  {
    hide DecU, Unzigzag, FloatOf;
  }

  /** A typed scalar comes back, and its type byte reads as its type id. */
  lemma {:induction false} ScalarRoundTrip(x: Scalar, x0: Scalar, rest: bytes)
    ensures DecScalar(x.Type(), x0, EncScalar(x) + rest) == SDone(x, rest)
    ensures var d := DecU(EncScalar(x) + rest); d.Got? && TypeOfWord(d.v) == TypeCode(x.Type())
  {
    hide DecU, EncU, TypeOfWord;
    var s := EncScalar(x) + rest;
    assert s[1..] == EncU(x.Word()) + rest;
    assert s == EncType(TypeCode(x.Type())) + s[1..];
    TypeRoundTrip(TypeCode(x.Type()), s[1..]);
    UnsignedRoundTrip(x.Word(), rest);
    WordRoundTrip(x);
  }

  // ---------------------------------------------------------------- byte vectors

  function EncBytes(data: bytes): bytes
    requires |data| < TWO_63
  {
    EncU(|data|) + data
  }

  /** A length and data read back as the length and, right behind it, the data. */
  lemma {:induction false} BytesRoundTrip(data: bytes, rest: bytes)
    requires |data| < TWO_63
    ensures DecU(EncBytes(data) + rest) == Got(|data|, data + rest)
    ensures EncBytes(data) == EncU(|data|) + data
  {
    hide DecU, EncU;
    Regroup(EncU(|data|), data, rest);
    UnsignedRoundTrip(|data|, data + rest);
  }

  /** Cut anywhere, the length is unfinished or runs past the data: the two cases in which the byte
      decoders return without moving. */
  lemma {:induction false} CutBytes(data: bytes, k: nat)
    requires |data| < TWO_63 && k < |EncBytes(data)|
    ensures var d := DecU(EncBytes(data)[..k]); d.Short? || d.v > |d.rest|
  {
    hide DecU, EncU;
    var p := EncU(|data|);
    if k < |p| {
      assert EncBytes(data)[..k] == p[..k];
      if k > 0 {
        CutEncodingAsksForLength(|data|, k);
      } else {
        assert p[..0] == [];
        NothingToRead();
      }
    } else {
      assert EncBytes(data)[..k] == p + data[..k - |p|];
      UnsignedRoundTrip(|data|, data[..k - |p|]);
    }
  }

  lemma {:induction false} NothingToRead()
    ensures DecU([]) == Short(1)
  {
  }

  function EncVector(data: bytes): bytes
    requires |data| < TWO_63
  {
    [BaseType(GLME_VECTOR)] + EncBytes(data)
  }

  /** `memcpy` of the common length and `memset` of what is left of a destination of `len` bytes. */
  function Padded(data: bytes, len: nat): (r: bytes)
    ensures |r| == len
    ensures forall i | 0 <= i < len :: r[i] == if i < |data| then data[i] else 0
  {
    if len <= |data| then data[..len] else data + seq(len - |data|, i => 0)
  }

  /** The outcome of the vector decoder: the code it returns, the unread bytes, and, when the
      data was there, the destination. `got` is false when the length ran past the data. */
  datatype VDec = VFail | VDone(code: int, got: bool, data: bytes, rest: bytes)

  /** `glme_decode_vector` into a destination of `len` zeroed bytes. When the length runs past the
      data the code is minus the space needed, narrowed to an `int`: not always negative. */
  function DecVector(s: bytes, len: nat): (r: VDec)
    ensures r.VDone? ==> |r.rest| < |s| && |r.data| == len
    ensures r.VDone? && !r.got ==> r.data == Padded([], len)
  {
    if |s| == 0 || (s[0] != BaseType(GLME_VECTOR) && s[0] != BaseType(GLME_STRING)) then VFail
    else
      match DecU(s[1..])
      case Short(_) => VFail
      case Got(d, t) =>
        if d > |t| then
          var code := ToInt32(-(d + (|s| - 1 - |t|)));
          if code < 0 then VFail else VDone(code, false, Padded([], len), s[1..])
        else
          VDone(|s| - |t| + d, true, Padded(t[..d], len), t[d..])
  }

  /** A vector comes back in a destination of any length, cut or filled up with zeros, and is consumed
      exactly. Its type byte reads as its type id. */
  lemma {:induction false} VectorRoundTrip(data: bytes, len: nat, rest: bytes)
    requires |data| < TWO_63
    ensures var d := DecVector(EncVector(data) + rest, len);
            d.VDone? && d.code > 0 && d.got && d.rest == rest && |d.data| == len &&
            forall i | 0 <= i < len :: d.data[i] == if i < |data| then data[i] else 0
    ensures DecVector(EncVector(data) + rest, len).data == Padded(data, len)
    ensures EncVector(data) == [10] + EncU(|data|) + data
    ensures var d := DecU(EncVector(data) + rest); d.Got? && TypeOfWord(d.v) == GLME_VECTOR
  {
    hide DecU, EncU, TypeOfWord;
    var s := EncVector(data) + rest;
    assert s[1..] == EncU(|data|) + (data + rest);
    assert s == EncType(GLME_VECTOR) + s[1..];
    TypeRoundTrip(GLME_VECTOR, s[1..]);
    UnsignedRoundTrip(|data|, data + rest);
    assert (data + rest)[..|data|] == data && (data + rest)[|data|..] == rest;
  }
}
