/** The untyped tree value the converter reads and writes (folly::dynamic), reduced to
    the interface the converter uses: the seven kinds, the strict typed getters
    (getString, getInt, getDouble) and the coercing extractors (asInt, asDouble). */
module Dynamic {

  /** A double is only stored and moved, never computed with: it is kept as its
      IEEE-754 binary64 bit pattern. */
  type Double = bv64

  datatype Option<+T> = None | Some(value: T)

  /** The outcome of a conversion: a value, or an exception that propagated out of
      it (folly's TypeError, std::out_of_range or a conversion error; they are not
      told apart, see README). */
  datatype Result<+T> = Ok(value: T) | Thrown

  datatype Tree =
    | Null
    | Bool(b: bool)
    | Int(i: int)
    | Dbl(d: Double)
    | Str(s: string)
    | Arr(items: seq<Tree>)
    | Obj(fields: map<string, Tree>)

  /** folly's number conversions (folly::to) that asInt and asDouble apply to a
      payload of another kind: whether they succeed depends on the payload (a string
      that parses, a double without fraction, an integer exactly representable as a
      double). That code is not part of this model and is a parameter. */
  datatype Coercion = Coercion(toInt: Tree -> Option<int>, toDouble: Tree -> Option<Double>)

  /** getInt: only an integer payload is accepted. */
  function GetInt(t: Tree): (r: Option<int>)
    ensures r.Some? <==> t.Int?
    ensures r.Some? ==> r.value == t.i
  {
    if t.Int? then Some(t.i) else None
  }

  /** getDouble: only a double payload is accepted. */
  function GetDouble(t: Tree): (r: Option<Double>)
    ensures r.Some? <==> t.Dbl?
    ensures r.Some? ==> r.value == t.d
  {
    if t.Dbl? then Some(t.d) else None
  }

  /** asInt: an integer is returned as is, a boolean as 0 or 1, a double or a string
      goes through folly::to; null, arrays and objects are a TypeError. */
  function AsInt(conv: Coercion, t: Tree): (r: Option<int>)
    ensures t.Int? ==> r == Some(t.i)
    ensures t.Bool? ==> r == Some(if t.b then 1 else 0)
    ensures t.Null? || t.Arr? || t.Obj? ==> r.None?
  {
    match t
    case Int(i) => Some(i)
    case Bool(b) => Some(if b then 1 else 0)
    case Dbl(_) => conv.toInt(t)
    case Str(_) => conv.toInt(t)
    case _ => None
  }

  /** asDouble: a double is returned as is, an integer, a boolean or a string goes
      through folly::to; null, arrays and objects are a TypeError. */
  function AsDouble(conv: Coercion, t: Tree): (r: Option<Double>)
    ensures t.Dbl? ==> r == Some(t.d)
    ensures t.Null? || t.Arr? || t.Obj? ==> r.None?
  {
    match t
    case Dbl(d) => Some(d)
    case Int(_) => conv.toDouble(t)
    case Bool(_) => conv.toDouble(t)
    case Str(_) => conv.toDouble(t)
    case _ => None
  }
}
