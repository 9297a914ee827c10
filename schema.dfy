/** The static side of the converter: which C++ types it accepts and what their
    values look like. A closed schema datatype stands in for the trait dispatch of
    impl::dynamic_converter_impl: a type the dispatch rejects cannot be written. */
module Schema {
  import opened Dynamic

  /** One entry of a PROPERTIES tuple (PropertyImpl): the external key, the member's
      type and the member's default initialiser (the value a default-constructed
      object holds, e.g. `int age = 100`). */
  datatype Field = Field(name: string, ty: Ty, init: Value)

  datatype Ty =
    | TInt                        // any integral type other than bool
    | TDouble                     // any floating-point type
    | TString                     // std::string
    | TSeq(elem: Ty)              // std::vector<T> and std::list<T>
    | TMap(val: Ty)               // std::map<std::string, V> and std::unordered_map<std::string, V>
    | TStruct(fields: seq<Field>) // a class with PROPERTIES, in tuple order

  /** A C++ object, shaped by its type; a struct holds the members its PROPERTIES
      tuple lists, in tuple order. */
  datatype Value =
    | VInt(i: int)
    | VDouble(d: Double)
    | VStr(s: string)
    | VSeq(elems: seq<Value>)
    | VMap(entries: map<string, Value>)
    | VStruct(members: seq<Value>)

  predicate HasType(v: Value, ty: Ty)
    decreases ty
  {
    match ty
    case TInt => v.VInt?
    case TDouble => v.VDouble?
    case TString => v.VStr?
    case TSeq(e) => v.VSeq? && forall i | 0 <= i < |v.elems| :: HasType(v.elems[i], e)
    case TMap(vt) => v.VMap? && forall k | k in v.entries :: HasType(v.entries[k], vt)
    case TStruct(fs) =>
      v.VStruct? && |v.members| == |fs| &&
      forall i | 0 <= i < |fs| :: HasType(v.members[i], fs[i].ty)
  }

  /** Property names are unique within a PROPERTIES tuple. */
  predicate DistinctNames(fs: seq<Field>) {
    forall i, j | 0 <= i < j < |fs| :: fs[i].name != fs[j].name
  }

  /** The types this model admits: at every level, the property names of a class
      are distinct (an assumption about PROPERTIES tuples; the macros themselves
      accept a repeated member) and each initialiser has its member's type. */
  predicate WellFormed(ty: Ty)
    decreases ty
  {
    match ty
    case TSeq(e) => WellFormed(e)
    case TMap(vt) => WellFormed(vt)
    case TStruct(fs) =>
      DistinctNames(fs) &&
      forall i | 0 <= i < |fs| :: WellFormed(fs[i].ty) && HasType(fs[i].init, fs[i].ty)
    case _ => true
  }

  /** The value of a default-constructed object (`T value;`, `K key;`,
      `output.emplace_back()`): empty string and containers, each member of a struct
      at its initialiser. A scalar without initialiser is indeterminate in C++ and is
      taken as zero here. */
  function Default(ty: Ty): (r: Value)
    ensures WellFormed(ty) ==> HasType(r, ty)
    ensures ty.TStruct? ==> r.VStruct? && |r.members| == |ty.fields| &&
                            forall i | 0 <= i < |ty.fields| :: r.members[i] == ty.fields[i].init
  {
    match ty
    case TInt => VInt(0)
    case TDouble => VDouble(0)
    case TString => VStr("")
    case TSeq(_) => VSeq([])
    case TMap(_) => VMap(map[])
    case TStruct(fs) => VStruct(seq(|fs|, i requires 0 <= i < |fs| => fs[i].init))
  }

  /** True when no numeric member occurs anywhere in the type. */
  predicate NumericFree(ty: Ty)
    decreases ty
  {
    match ty
    case TInt => false
    case TDouble => false
    case TString => true
    case TSeq(e) => NumericFree(e)
    case TMap(vt) => NumericFree(vt)
    case TStruct(fs) => forall i | 0 <= i < |fs| :: NumericFree(fs[i].ty)
  }

  /** The value holds no container content: every sequence and map reachable
      through struct members is empty. */
  predicate Settled(ty: Ty, v: Value)
    requires HasType(v, ty)
    decreases ty
  {
    match ty
    case TSeq(_) => v.elems == []
    case TMap(_) => v.entries == map[]
    case TStruct(fs) => forall i | 0 <= i < |fs| :: Settled(fs[i].ty, v.members[i])
    case _ => true
  }

  /** Every struct initialiser, at every level, is settled: no member sequence or map
      starts out with content. */
  predicate CleanDefaults(ty: Ty)
    requires WellFormed(ty)
    decreases ty
  {
    match ty
    case TSeq(e) => CleanDefaults(e)
    case TMap(vt) => CleanDefaults(vt)
    case TStruct(fs) =>
      forall i | 0 <= i < |fs| :: Settled(fs[i].ty, fs[i].init) && CleanDefaults(fs[i].ty)
    case _ => true
  }
}
