/**
 The struct layer: what a schema is, what its encoder writes, and what its
 decoder does with any bytes at all.
 */
module Schema {
  import opened Words
  import opened Float64
  import opened Gobber
  import opened Wire
  import opened Arrays

  // ---------------------------------------------------------------- schemas and values

  /** Type ids from GLME_USER_MIN up name structs. */
  type UserId = x: int | 16 <= x < TWO_31 witness 16

  /** The size of an array member of a C struct. */
  type ArrayLen = n: nat | n <= INT_MAX

  /** One field macro of a struct: the type it expects and the default it omits. */
  datatype Kind =
    | Single(dflt: Scalar)    // FLD_INT, FLD_UINT, FLD_DOUBLE
    | Vector(len: ArrayLen)   // FLD_VECTOR: the reader has a char[len]; the writer may send any number of bytes
    | Array(ty: Ty)           // FLD_INT_ARRAY and its siblings: pointer and length
    | Embed(id: UserId)       // FLD_STRUCT
    | Pointer(id: UserId)     // FLD_STRUCT_PTR
    | Structs(id: UserId)     // a field of GLME_F_ARRAY with a user type id
  {
    /** The `typeid` argument of the field calls. */
    function ElemType(): TypeId {
      match this
      case Single(d) => TypeCode(d.Type())
      case Vector(_) => GLME_VECTOR
      case Array(ty) => TypeCode(ty)
      case Embed(id) => id
      case Pointer(id) => id
      case Structs(id) => id
    }

    /** Whether `flags` has GLME_F_ARRAY. */
    predicate IsArray() {
      Array? || Structs?
    }
  }

  datatype Field =
    | SingleVal(x: Scalar)
    | VectorVal(data: bytes)
    | ArrayVal(elems: seq<Scalar>)
    | EmbedVal(rec: seq<Field>)
    | PointerVal(rec: seq<Field>)
    | StructsVal(recs: seq<Rec>)
    | Null

  /** An element of a struct array. */
  datatype Rec = Rec(vals: seq<Field>)

  const MAX_FIELDS := 0x4000_0000

  type Layout = s: seq<Kind> | |s| < MAX_FIELDS witness []

  /** A struct type. A C struct cannot contain itself, so it embeds only structs of smaller `depth`. */
  datatype StructType = StructType(depth: nat, fields: Layout)

  type Types = map<UserId, StructType>

  function Fields(env: Types, id: UserId): Layout {
    if id in env then env[id].fields else []
  }

  function Depth(env: Types, id: UserId): nat {
    if id in env then env[id].depth else 0
  }

  /** All struct types. Through pointers and arrays they may refer to each other and to themselves. */
  type Env = env: Types |
    forall id, i | id in env && 0 <= i < |env[id].fields| && env[id].fields[i].Embed? ::
      Depth(env, env[id].fields[i].id) < env[id].depth

  /** A field of zero-filled memory, for fields that are not structs themselves. */
  function ZeroField(k: Kind): Field
    requires !k.Embed?
  {
    match k
    case Single(d) => SingleVal(ZeroScalar(d.Type()))
    case Vector(len) => VectorVal(Padded([], len))
    case Array(_) => ArrayVal([])
    case Pointer(_) => Null
    case Structs(_) => StructsVal([])
  }

  /** Zero-filled memory as a struct value. */
  function ZeroRecord(env: Env, id: UserId): (rec: seq<Field>)
    ensures |rec| == |Fields(env, id)|
    decreases Depth(env, id)
  {
    var kinds := Fields(env, id);
    seq(|kinds|, i requires 0 <= i < |kinds| =>
      if kinds[i].Embed? then EmbedVal(ZeroRecord(env, kinds[i].id)) else ZeroField(kinds[i]))
  }

  /** What the decode macro puts in the target before it looks at the stream. */
  function Default(env: Env, k: Kind): Field {
    match k
    case Single(d) => SingleVal(d)
    case Embed(id) => EmbedVal(ZeroRecord(env, id))
    case _ => ZeroField(k)
  }

  predicate FitsField(env: Env, k: Kind, v: Field)
    decreases v, 0
  {
    match k
    case Single(d) => v.SingleVal? && v.x.Type() == d.Type()
    case Vector(len) => v.VectorVal? && |v.data| <= INT_MAX
    case Array(ty) => v.ArrayVal? && |v.elems| <= INT_MAX && forall x | x in v.elems :: x.Type() == ty
    case Embed(id) => v.EmbedVal? && Fits(env, Fields(env, id), v.rec)
    case Pointer(id) => v.Null? || (v.PointerVal? && Fits(env, Fields(env, id), v.rec))
    case Structs(id) => v.StructsVal? && |v.recs| <= INT_MAX && FitAll(env, id, v.recs)
  }

  /** Whether `vals` is a value of a struct with fields `kinds`. */
  predicate Fits(env: Env, kinds: seq<Kind>, vals: seq<Field>)
    ensures Fits(env, kinds, vals) ==> |kinds| == |vals|
    decreases vals, 1
  {
    if vals == [] then kinds == []
    else kinds != [] && FitsField(env, kinds[0], vals[0]) && Fits(env, kinds[1..], vals[1..])
  }

  lemma {:induction false} FitsAt(env: Env, kinds: seq<Kind>, vals: seq<Field>, i: nat)
    requires Fits(env, kinds, vals) && i < |kinds|
    ensures FitsField(env, kinds[i], vals[i])
    decreases i
  {
    if i > 0 {
      FitsAt(env, kinds[1..], vals[1..], i - 1);
    }
  }

  predicate FitAll(env: Env, id: UserId, recs: seq<Rec>)
    decreases recs, 2
  {
    forall r | r in recs :: Fits(env, Fields(env, id), r.vals)
  }

  // ---------------------------------------------------------------- encoding

  /** The fields `glme_encode_field` leaves out: defaults, empty vectors and arrays, null pointers. */
  predicate Omitted(k: Kind, v: Field) {
    match v
    case SingleVal(x) => k.Single? && x.EqualInC(k.dflt)
    case VectorVal(data) => data == []
    case ArrayVal(elems) => elems == []
    case StructsVal(recs) => recs == []
    case Null => true
    case _ => false
  }

  /** Which fields these are, kind by kind. */
  lemma {:induction false} OmittedMeans(env: Env, k: Kind, v: Field)
    requires FitsField(env, k, v)
    ensures Omitted(k, v) <==>
            match k
            case Single(I(i)) => v.x.i == i
            case Single(U(u)) => v.x.u == u
            case Single(F(f)) => IeeeEqual(v.x.f, f)
            case Vector(_) => |v.data| == 0
            case Array(_) => |v.elems| == 0
            case Structs(_) => |v.recs| == 0
            case Pointer(_) => v == Null
            case Embed(_) => false
  {
    hide IeeeEqual;
  }

  /** All fields from the current one to the end mark. `delta` is the distance from the last field sent. */
  function EncFields(env: Env, kinds: seq<Kind>, vals: seq<Field>, delta: nat): (s: bytes)
    requires Fits(env, kinds, vals) && delta + |kinds| <= TWO_32
    ensures |s| >= 1
    decreases vals, 1
  {
    if kinds == [] then EncU(0)
    else if Omitted(kinds[0], vals[0]) then EncFields(env, kinds[1..], vals[1..], delta + 1)
    else EncU(delta) + (EncBody(env, kinds[0], vals[0]) + EncFields(env, kinds[1..], vals[1..], 1))
  }

  /** A struct value: its fields, starting from distance one. */
  function EncRecord(env: Env, id: UserId, rec: seq<Field>): (s: bytes)
    requires Fits(env, Fields(env, id), rec)
    ensures |s| >= 1
    decreases rec, 2
  {
    EncFields(env, Fields(env, id), rec, 1)
  }

  function EncScalars(elems: seq<Scalar>): bytes {
    if elems == [] then [] else EncValue(elems[0]) + EncScalars(elems[1..])
  }

  function EncRecords(env: Env, id: UserId, recs: seq<Rec>): bytes
    requires FitAll(env, id, recs)
    decreases recs, 3
  {
    if recs == [] then [] else EncRecord(env, id, recs[0].vals) + EncRecords(env, id, recs[1..])
  }

  /** A sent field, after its offset. */
  function EncBody(env: Env, k: Kind, v: Field): bytes
    requires FitsField(env, k, v) && !Omitted(k, v)
    decreases v, 0
  {
    match k
    case Single(_) => EncScalar(v.x)
    case Vector(_) => EncVector(v.data)
    case Array(ty) => EncArrayStart(TypeCode(ty), |v.elems|) + EncScalars(v.elems)
    case Embed(id) => EncType(id) + EncRecord(env, id, v.rec)
    case Pointer(id) => EncType(id) + EncRecord(env, id, v.rec)
    case Structs(id) => EncArrayStart(id, |v.recs|) + EncRecords(env, id, v.recs)
  }

  /** A whole message: type id and struct value. */
  function EncStruct(env: Env, id: UserId, rec: seq<Field>): bytes
    requires Fits(env, Fields(env, id), rec)
  {
    EncType(id) + EncRecord(env, id, rec)
  }

  // ---------------------------------------------------------------- decoding

  datatype ScalarsDec = ScalarsFail | Scalars(elems: seq<Scalar>, rest: bytes)
  datatype RecordsDec = RecordsFail | Records(recs: seq<Rec>, rest: bytes)
  datatype BodyDec = BodyFail | Body(v: Field, code: int, rest: bytes)
  datatype FieldDec = FieldFail | Decoded(v: Field, delta: nat, rest: bytes)
  datatype RecordDec = RecordFail | Record(vals: seq<Field>, rest: bytes)

  function DecEnd(s: bytes): (r: RecordDec)
    ensures r.Record? ==> |r.rest| < |s|
  {
    match DecU(s)
    case Short(_) => RecordFail
    case Got(mark, rest) => if |s| - |rest| == 1 && mark == 0 then Record([], rest) else RecordFail
  }

  /** The element loop of a numeric array, over zeroed memory. */
  function DecScalars(ty: Ty, n: nat, s: bytes): (r: ScalarsDec)
    ensures r.Scalars? ==> |r.rest| <= |s|
    ensures r.Scalars? ==> |r.elems| == n
  {
    if n == 0 then Scalars([], s)
    else
      match DecValue(ty, ZeroScalar(ty), s)
      case SFail => ScalarsFail
      case SDone(x, t) =>
        match DecScalars(ty, n - 1, t)
        case ScalarsFail => ScalarsFail
        case Scalars(xs, rest) => Scalars([x] + xs, rest)
  }

  /** The element loop of a struct array. */
  function DecRecords(env: Env, id: UserId, n: nat, s: bytes): (r: RecordsDec)
    ensures r.Records? ==> |r.rest| <= |s| && (n > 0 ==> |r.rest| < |s|)
    decreases |s|, 1, n
  {
    if n == 0 then Records([], s)
    else
      match DecFields(env, Fields(env, id), 1, s)
      case RecordFail => RecordsFail
      case Record(rec, t) =>
        match DecRecords(env, id, n - 1, t)
        case RecordsFail => RecordsFail
        case Records(recs, rest) => Records([Rec(rec)] + recs, rest)
  }

  /** The part of `glme_decode_field` that follows a matching offset: the checks of the type id. */
  function DecBody(env: Env, k: Kind, s: bytes): (r: BodyDec)
    ensures r.Body? ==> |r.rest| <= |s| && (r.code > 0 ==> |r.rest| < |s|)
    decreases |s|, 3, 0
  {
    match DecU(s)
    case Short(_) => BodyFail
    case Got(u, _) =>
      if TypeOfWord(u) == GLME_ARRAY then (if k.IsArray() then DecArray(env, k, s) else BodyFail)
      else if TypeOfWord(u) != k.ElemType() then BodyFail
      else DecElement(env, k, s)
  }

  /** The switch, for an element that is not an array. A lone element where an array is expected
      leaves the array length at zero. */
  function DecElement(env: Env, k: Kind, s: bytes): (r: BodyDec)
    ensures r.Body? ==> |r.rest| <= |s| && (r.code > 0 ==> |r.rest| < |s|)
    decreases |s|, 2, 0
  {
    match k
    case Single(d) =>
      (match DecScalar(d.Type(), d, s)
       case SFail => BodyFail
       case SDone(x, rest) => Body(SingleVal(x), 1, rest))
    case Vector(len) =>
      (match DecVector(s, len)
       case VFail => BodyFail
       case VDone(code, _, data, rest) => Body(VectorVal(data), code, rest))
    case Array(_) =>
      (match DecU(s)
       case Short(_) => BodyFail
       case Got(_, t) => Body(ArrayVal([]), 1, t))
    case _ => DecNested(env, k, s)
  }

  /** The default case: a struct, a pointer to one, or a lone struct where an array is expected. */
  function DecNested(env: Env, k: Kind, s: bytes): (r: BodyDec)
    requires k.Embed? || k.Pointer? || k.Structs?
    ensures r.Body? ==> r.code > 0 && |r.rest| < |s|
    decreases |s|, 1, 0
  {
    match DecU(s)
    case Short(_) => BodyFail
    case Got(u, t) =>
      if TypeOfWord(u) != k.id then BodyFail
      else
        match DecFields(env, Fields(env, k.id), 1, t)
        case RecordFail => BodyFail
        case Record(rec, rest) =>
          Body(if k.Embed? then EmbedVal(rec) else if k.Pointer? then PointerVal(rec) else StructsVal([]), 1, rest)
  }

  /** An array field. The code is the number of bytes the elements took. More than INT_MAX elements
      are not allocated. */
  function DecArray(env: Env, k: Kind, s: bytes): (r: BodyDec)
    requires k.IsArray()
    ensures r.Body? ==> |r.rest| < |s|
    decreases |s|, 1, 0
  {
    match DecArrayStart(s)
    case StartFail => BodyFail
    case Start(id, n, t) =>
      if id != k.ElemType() then BodyFail
      else if n == 0 then Body(Default(env, k), 0, t)
      else if n > INT_MAX then BodyFail
      else if k.Array? then
        match DecScalars(k.ty, n, t)
        case ScalarsFail => BodyFail
        case Scalars(elems, rest) => Body(ArrayVal(elems), |t| - |rest|, rest)
      else
        match DecRecords(env, k.id, n, t)
        case RecordsFail => BodyFail
        case Records(recs, rest) => Body(StructsVal(recs), |t| - |rest|, rest)
  }

  /** `glme_decode_field`: peek at the next offset; skip the field or decode it. The counter goes
      back to one only if the decoding took a positive number of bytes. */
  function DecField(env: Env, k: Kind, delta: nat, s: bytes): (r: FieldDec)
    ensures r.Decoded? ==> |r.rest| <= |s|
    decreases |s|, 0, 0
  {
    match DecU(s)
    case Short(_) => FieldFail
    case Got(offset, t) =>
      if offset == 0 || delta == 0 then Decoded(Default(env, k), 0, s)
      else if delta < offset then Decoded(Default(env, k), delta + 1, s)
      else
        match DecBody(env, k, t)
        case BodyFail => FieldFail
        case Body(v, code, rest) => Decoded(v, if code > 0 then 1 else delta, rest)
  }

  /** The fields from the current one to the end mark, with the decoder's counter at `delta`. */
  function DecFields(env: Env, kinds: seq<Kind>, delta: nat, s: bytes): (r: RecordDec)
    ensures r.Record? ==> |r.rest| < |s| && |r.vals| == |kinds|
    decreases |s|, 0, |kinds|
  {
    if kinds == [] then DecEnd(s)
    else
      match DecField(env, kinds[0], delta, s)
      case FieldFail => RecordFail
      case Decoded(v, delta', t) =>
        match DecFields(env, kinds[1..], delta', t)
        case RecordFail => RecordFail
        case Record(vs, rest) => Record([v] + vs, rest)
  }

  /** `glme_decode_struct`: a whole message, read by the decoder of `id`. Its type id must be `typeid`,
      unless that is zero. */
  function DecMessage(env: Env, typeid: int, id: UserId, s: bytes): RecordDec {
    match DecU(s)
    case Short(_) => RecordFail
    case Got(u, t) =>
      if typeid != 0 && TypeOfWord(u) != typeid then RecordFail else DecFields(env, Fields(env, id), 1, t)
  }

  /** A whole message whose type id must be `id`. */
  function DecStruct(env: Env, id: UserId, s: bytes): RecordDec {
    DecMessage(env, id, id, s)
  }
}
