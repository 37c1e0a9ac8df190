/**
 What the struct decoder makes of bytes that the encoder of this library does not
 write.
 */
module Foreign {
  import opened Words
  import opened Gobber
  import opened Wire
  import opened Arrays
  import opened Schema
  import opened Readers
  import opened RoundTrip

  /** A message with another type id than asked for is refused. With type id zero any will do, and the caller's
      decoder is applied to what follows. */
  lemma {:induction false} MessageType(env: Env, typeid: int, id: UserId, sent: TypeId, rest: bytes)
    ensures DecMessage(env, typeid, id, EncType(sent) + rest)
         == if typeid == 0 || typeid == sent then DecFields(env, Fields(env, id), 1, rest) else RecordFail
  {
    hide DecU, TypeOfWord, EncType, DecFields, Fields;
    TypeRoundTrip(sent, rest);
  }

  /** A field is refused when the type id on the wire is neither the one expected nor, where an array is
      expected, that of arrays. */
  lemma {:induction false} WrongTypeRefused(env: Env, k: Kind, id: TypeId, rest: bytes)
    requires match k
             case Single(I(_)) => id != 2
             case Single(U(_)) => id != 3
             case Single(F(_)) => id != 4
             case Vector(_) => id != 5
             case Array(TInt) => id != 2 && id != 10
             case Array(TUint) => id != 3 && id != 10
             case Array(TFloat) => id != 4 && id != 10
             case Embed(t) => id != t
             case Pointer(t) => id != t
             case Structs(t) => id != t && id != 10
    ensures DecBody(env, k, EncType(id) + rest) == BodyFail
  {
    hide DecU, TypeOfWord, EncType;
    TypeRoundTrip(id, rest);
  }

  /** An array is refused when its elements are of another type, or more than can be allocated. */
  lemma {:induction false} WrongArrayRefused(env: Env, k: Kind, id: TypeId, n: u64, rest: bytes)
    requires k.Array? || k.Structs?
    requires n > INT_MAX ||
             match k
             case Array(TInt) => id != 2
             case Array(TUint) => id != 3
             case Array(TFloat) => id != 4
             case Structs(t) => id != t
    ensures DecBody(env, k, EncArrayStart(id, n) + rest) == BodyFail
  {
    hide DecU, TypeOfWord, EncArrayStart, DecArrayStart;
    ArrayStartRoundTrip(id, n, rest);
  }

  /** What can be taken for the start of an array. */
  lemma {:induction false} ArrayStartAccepted(s: bytes)
    ensures DecArrayStart(s).Start? <==>
            s != [] && s[0] == 20 && DecU(s[1..]).Got? && DecU(DecU(s[1..]).rest).Got?
    ensures DecArrayStart(s).Start? ==>
              var id := DecU(s[1..]);
              DecArrayStart(s).id == TypeOfWord(id.v) &&
              DecArrayStart(s).len == DecU(id.rest).v && DecArrayStart(s).rest == DecU(id.rest).rest
  {
    hide DecU, TypeOfWord;
  }

  /** An empty array, which the encoder omits, is read as one, but the counter does not start anew. */
  lemma {:induction false} EmptyArrayKeepsCounter(env: Env, k: Kind, id: TypeId, offset: nat, delta: nat, rest: bytes)
    requires 1 <= offset <= delta && offset < TWO_64
    requires match k
             case Array(TInt) => id == 2
             case Array(TUint) => id == 3
             case Array(TFloat) => id == 4
             case Structs(t) => id == t
             case _ => false
    ensures DecField(env, k, delta, EncU(offset) + (EncArrayStart(id, 0) + rest))
         == Decoded(if k.Array? then ArrayVal([]) else StructsVal([]), delta, rest)
  {
    hide DecU, EncU, EncArrayStart, DecBody;
    UnsignedRoundTrip(offset, EncArrayStart(id, 0) + rest);
    EmptyArrayBody(env, k, id, rest);
  }

  lemma {:induction false} EmptyArrayBody(env: Env, k: Kind, id: TypeId, rest: bytes)
    requires k.IsArray() && id == k.ElemType()
    ensures DecBody(env, k, EncArrayStart(id, 0) + rest)
         == Body(if k.Array? then ArrayVal([]) else StructsVal([]), 0, rest)
  {
    hide DecU, TypeOfWord, EncArrayStart, DecArrayStart;
    ArrayStartRoundTrip(id, 0, rest);
  }

  /** A field is read also when the counter has passed its offset. */
  lemma {:induction false} PassedOffset(env: Env, x: Scalar, d: Scalar, offset: nat, delta: nat, rest: bytes)
    requires 1 <= offset <= delta && offset < TWO_64 && x.Type() == d.Type()
    ensures DecField(env, Single(d), delta, EncU(offset) + (EncScalar(x) + rest)) == Decoded(SingleVal(x), 1, rest)
  {
    hide DecU, EncU, EncScalar, DecBody;
    UnsignedRoundTrip(offset, EncScalar(x) + rest);
    NumberBody(env, x, d, rest);
  }

  lemma {:induction false} NumberBody(env: Env, x: Scalar, d: Scalar, rest: bytes)
    requires x.Type() == d.Type()
    ensures DecBody(env, Single(d), EncScalar(x) + rest) == Body(SingleVal(x), 1, rest)
  {
    hide DecU, TypeOfWord, EncScalar, DecScalar;
    ScalarRoundTrip(x, d, rest);
  }

  /** After the end mark, and before an offset is reached, nothing is read; and an unfinished offset fails. */
  lemma {:induction false} FieldNotRead(env: Env, k: Kind, delta: nat, s: bytes)
    ensures DecU(s).Short? ==> DecField(env, k, delta, s) == FieldFail
    ensures DecU(s).Got? && (delta == 0 || DecU(s).v == 0) ==>
              DecField(env, k, delta, s) == Decoded(Default(env, k), 0, s)
    ensures DecU(s).Got? && 0 < delta < DecU(s).v ==>
              DecField(env, k, delta, s) == Decoded(Default(env, k), delta + 1, s)
  {
    hide DecU, DecBody;
  }

  /** A lone number where an array of numbers is expected: its type id is stepped over, as if it were the
      element, and the array is empty. */
  lemma {:induction false} LoneNumber(env: Env, ty: Ty, rest: bytes)
    ensures DecBody(env, Array(ty), EncType(TypeCode(ty)) + rest) == Body(ArrayVal([]), 1, rest)
  {
    hide DecU, TypeOfWord, EncType;
    TypeRoundTrip(TypeCode(ty), rest);
  }

  /** A lone struct where an array of structs is expected: it is read, and the array is empty. */
  lemma {:induction false} LoneStruct(env: Env, id: UserId, rec: seq<Field>, rest: bytes)
    requires Fits(env, Fields(env, id), rec)
    ensures DecBody(env, Structs(id), EncStruct(env, id, rec) + rest) == Body(StructsVal([]), 1, rest)
  {
    hide DecU, TypeOfWord, EncType, DecFields, EncFields, Knows, SeenFields, Fits, Fields;
    Regroup(EncType(id), EncRecord(env, id, rec), rest);
    TypeRoundTrip(id, EncRecord(env, id, rec) + rest);
    ReadRecord(env, env, id, rec, rest);
    LaterKnows(env, env, Fields(env, id), Fields(env, id), rec);
    var s := EncType(id) + (EncRecord(env, id, rec) + rest);
    assert DecElement(env, Structs(id), s) == DecNested(env, Structs(id), s);
  }
}
