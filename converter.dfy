/** impl::dynamic_converter_impl and the public wrappers: encoding a value into a tree
    and decoding a tree into a value, as functions of the whole input. The loops the
    C++ code runs to do this are in module ConverterLoops, proved equal to these. */
module Converter {
  import opened Dynamic
  import opened Schema

  /** Which `from` overload runs: the borrowing one (`const folly::dynamic&`), which
      extracts numbers with asInt/asDouble, or the consuming one
      (`folly::dynamic&&`), which uses getInt/getDouble. */
  datatype Mode = Borrow(conv: Coercion) | Consume

  /** The decoder as the source has it, or with its two defects corrected (numeric
      decode assigns the member; the borrowing struct decode reads present keys). */
  datatype Revision = AsWritten | Corrected

  /** `to`: every overload first assigns its output, so the tree a value encodes to
      does not depend on what the output held before. */
  function Encode(ty: Ty, v: Value): (r: Tree)
    requires WellFormed(ty) && HasType(v, ty)
    ensures Conforms(ty, r)
    decreases ty, 1
  {
    match ty
    case TInt => Int(v.i)
    case TDouble => Dbl(v.d)
    case TString => Str(v.s)
    case TSeq(e) => EncodeItems(e, v.elems)
    case TMap(vt) => EncodeEntries(vt, v.entries)
    case TStruct(fs) => EncodeMembers(fs, v.members)
  }

  /** A sequence encodes to an array holding the encodings of its elements, in order. */
  function EncodeItems(e: Ty, xs: seq<Value>): (r: Tree)
    requires WellFormed(e) && forall i | 0 <= i < |xs| :: HasType(xs[i], e)
    ensures Conforms(TSeq(e), r)
    decreases TSeq(e), 0
  {
    Arr(seq(|xs|, i requires 0 <= i < |xs| => Encode(e, xs[i])))
  }

  /** A string-keyed map encodes to an object with the same keys, each holding the
      encoding of its value. */
  function EncodeEntries(vt: Ty, m: map<string, Value>): (r: Tree)
    requires WellFormed(vt) && forall k | k in m :: HasType(m[k], vt)
    ensures Conforms(TMap(vt), r)
    decreases TMap(vt), 0
  {
    Obj(map k | k in m :: Encode(vt, m[k]))
  }

  /** A struct encodes to an object holding, under each property name, the encoding
      of that member. */
  function EncodeMembers(fs: seq<Field>, ms: seq<Value>): (r: Tree)
    requires WellFormed(TStruct(fs)) && HasType(VStruct(ms), TStruct(fs))
    ensures Conforms(TStruct(fs), r)
    ensures r.Obj? && forall n :: n in r.fields <==> exists i | 0 <= i < |fs| :: fs[i].name == n
    ensures forall i | 0 <= i < |fs| :: r.fields[fs[i].name] == Encode(fs[i].ty, ms[i])
    decreases TStruct(fs), 0
  {
    var o := map i | 0 <= i < |fs| :: fs[i].name := Encode(fs[i].ty, ms[i]);
    assert forall i | 0 <= i < |fs| :: fs[i].name in o && o[fs[i].name] == Encode(fs[i].ty, ms[i]);
    Obj(o)
  }

  /** The trees a consuming decode accepts: the exact scalar kinds, arrays and objects
      whose items conform, and for a struct an object (unless it has no properties)
      whose present property keys conform; absent keys and extra keys are allowed. */
  predicate Conforms(ty: Ty, t: Tree)
    decreases ty
  {
    match ty
    case TInt => t.Int?
    case TDouble => t.Dbl?
    case TString => t.Str?
    case TSeq(e) => t.Arr? && forall i | 0 <= i < |t.items| :: Conforms(e, t.items[i])
    case TMap(vt) => t.Obj? && forall k | k in t.fields :: Conforms(vt, t.fields[k])
    case TStruct(fs) =>
      (|fs| == 0 || t.Obj?) &&
      forall i | 0 <= i < |fs| :: fs[i].name in t.fields ==> Conforms(fs[i].ty, t.fields[fs[i].name])
  }

  /** The guard of the struct decode: true when a property is left alone. The
      consuming overload returns early when the key is absent; the borrowing one, as
      written, when the key is present. */
  predicate Skips(rev: Revision, mode: Mode, present: bool) {
    if rev.AsWritten? && mode.Borrow? then present else !present
  }

  /** `from`: decode `t` into an object that holds `prior` beforehand. */
  function Decode(rev: Revision, mode: Mode, ty: Ty, t: Tree, prior: Value): (r: Result<Value>)
    requires WellFormed(ty) && HasType(prior, ty)
    ensures r.Ok? ==> HasType(r.value, ty)
    decreases ty, 2
  {
    match ty
    case TInt =>
      // The target is taken by value: as written, the caller's member is untouched.
      var x := if mode.Consume? then GetInt(t) else AsInt(mode.conv, t);
      if x.None? then Thrown
      else if rev.AsWritten? then Ok(prior) else Ok(VInt(x.value))
    case TDouble =>
      var x := if mode.Consume? then GetDouble(t) else AsDouble(mode.conv, t);
      if x.None? then Thrown
      else if rev.AsWritten? then Ok(prior) else Ok(VDouble(x.value))
    case TString =>
      if t.Str? then Ok(VStr(t.s)) else Thrown
    case TSeq(e) => DecodeItems(rev, mode, e, t, prior.elems)
    case TMap(vt) => DecodeEntries(rev, mode, vt, t, prior.entries)
    case TStruct(fs) => DecodeMembers(rev, mode, fs, t, prior.members)
  }

  /** Sequence decode: iterating a non-array throws; each item is decoded into a
      freshly appended default element, after whatever the sequence held. */
  function DecodeItems(rev: Revision, mode: Mode, e: Ty, t: Tree, prior: seq<Value>): (r: Result<Value>)
    requires WellFormed(e) && forall i | 0 <= i < |prior| :: HasType(prior[i], e)
    ensures r.Ok? ==> HasType(r.value, TSeq(e))
    decreases TSeq(e), 1
  {
    if !t.Arr? then Thrown
    else if exists i | 0 <= i < |t.items| :: Decode(rev, mode, e, t.items[i], Default(e)).Thrown? then Thrown
    else Ok(VSeq(prior + DecodedItems(rev, mode, e, t)))
  }

  /** The items of an array each decoded into a default element, when none throws. */
  function DecodedItems(rev: Revision, mode: Mode, e: Ty, t: Tree): (r: seq<Value>)
    requires WellFormed(e) && t.Arr?
    requires forall i | 0 <= i < |t.items| :: Decode(rev, mode, e, t.items[i], Default(e)).Ok?
    ensures |r| == |t.items|
    ensures forall i | 0 <= i < |r| :: r[i] == Decode(rev, mode, e, t.items[i], Default(e)).value
    decreases TSeq(e), 0
  {
    seq(|t.items|, i requires 0 <= i < |t.items| => Decode(rev, mode, e, t.items[i], Default(e)).value)
  }

  /** When every item of the array decodes to the element `vals` holds at its
      index, the sequence decode appends those elements to the prior ones. */
  lemma DecodeItemsOf(rev: Revision, mode: Mode, e: Ty, t: Tree, prior: seq<Value>, vals: seq<Value>)
    requires WellFormed(e) && forall i | 0 <= i < |prior| :: HasType(prior[i], e)
    requires t.Arr? && |vals| == |t.items|
    requires forall i | 0 <= i < |t.items| :: Decode(rev, mode, e, t.items[i], Default(e)) == Ok(vals[i])
    ensures DecodeItems(rev, mode, e, t, prior) == Ok(VSeq(prior + vals))
  {
    assert DecodedItems(rev, mode, e, t) == vals;
  }

  /** Map decode: items() of a non-object throws; every value is decoded into a
      default V and emplaced, so a key the map already holds keeps its old value. */
  function DecodeEntries(rev: Revision, mode: Mode, vt: Ty, t: Tree, prior: map<string, Value>): (r: Result<Value>)
    requires WellFormed(vt) && forall k | k in prior :: HasType(prior[k], vt)
    ensures r.Ok? ==> HasType(r.value, TMap(vt))
    decreases TMap(vt), 1
  {
    if !t.Obj? then Thrown
    else if exists k | k in t.fields :: Decode(rev, mode, vt, t.fields[k], Default(vt)).Thrown? then Thrown
    else Ok(VMap(DecodedValues(rev, mode, vt, t) + prior))
  }

  /** The values of an object each decoded into a default V, when none throws. */
  function DecodedValues(rev: Revision, mode: Mode, vt: Ty, t: Tree): (r: map<string, Value>)
    requires WellFormed(vt) && t.Obj?
    requires forall k | k in t.fields :: Decode(rev, mode, vt, t.fields[k], Default(vt)).Ok?
    ensures r.Keys == t.fields.Keys
    ensures forall k | k in r :: r[k] == Decode(rev, mode, vt, t.fields[k], Default(vt)).value
    decreases TMap(vt), 0
  {
    map k | k in t.fields :: Decode(rev, mode, vt, t.fields[k], Default(vt)).value
  }

  /** When every value of the object decodes to the entry `vals` holds under its key,
      the map decode yields those entries, under the prior ones. */
  lemma DecodeEntriesOf(rev: Revision, mode: Mode, vt: Ty, t: Tree, prior: map<string, Value>, vals: map<string, Value>)
    requires WellFormed(vt) && forall k | k in prior :: HasType(prior[k], vt)
    requires t.Obj? && vals.Keys == t.fields.Keys
    requires forall k | k in t.fields :: Decode(rev, mode, vt, t.fields[k], Default(vt)) == Ok(vals[k])
    ensures DecodeEntries(rev, mode, vt, t, prior) == Ok(VMap(vals + prior))
  {
    DecodedValuesAre(rev, mode, vt, t, vals);
  }

  lemma DecodedValuesAre(rev: Revision, mode: Mode, vt: Ty, t: Tree, vals: map<string, Value>)
    requires WellFormed(vt) && t.Obj? && vals.Keys == t.fields.Keys
    requires forall k | k in t.fields :: Decode(rev, mode, vt, t.fields[k], Default(vt)) == Ok(vals[k])
    ensures forall k | k in t.fields :: Decode(rev, mode, vt, t.fields[k], Default(vt)).Ok?
    ensures DecodedValues(rev, mode, vt, t) == vals
  {
  }

  /** What one property of a struct decode yields: the prior member when the guard
      skips it, an exception when the key is absent (const operator[] throws), the
      member decoded from the key's tree otherwise. */
  function FieldStep(rev: Revision, mode: Mode, fs: seq<Field>, t: Tree, prior: seq<Value>, i: nat): (r: Result<Value>)
    requires WellFormed(TStruct(fs)) && HasType(VStruct(prior), TStruct(fs)) && t.Obj? && i < |fs|
    ensures r.Ok? ==> HasType(r.value, fs[i].ty)
    decreases TStruct(fs), 0
  {
    var f := fs[i];
    if Skips(rev, mode, f.name in t.fields) then Ok(prior[i])
    else if f.name !in t.fields then Thrown
    else Decode(rev, mode, f.ty, t.fields[f.name], prior[i])
  }

  /** Struct decode: count() on a non-object throws as soon as there is a property
      to look up; otherwise every property is handled by FieldStep. */
  function DecodeMembers(rev: Revision, mode: Mode, fs: seq<Field>, t: Tree, prior: seq<Value>): (r: Result<Value>)
    requires WellFormed(TStruct(fs)) && HasType(VStruct(prior), TStruct(fs))
    ensures r.Ok? ==> HasType(r.value, TStruct(fs))
    decreases TStruct(fs), 1
  {
    if |fs| == 0 then Ok(VStruct(prior))
    else if !t.Obj? then Thrown
    else if exists i | 0 <= i < |fs| :: FieldStep(rev, mode, fs, t, prior, i).Thrown? then Thrown
    else Ok(VStruct(seq(|fs|, i requires 0 <= i < |fs| => FieldStep(rev, mode, fs, t, prior, i).value)))
  }

  /** from_dynamic<T>: decode into a default-constructed T. */
  function FromDynamic(mode: Mode, ty: Ty, t: Tree): (r: Result<Value>)
    requires WellFormed(ty)
    ensures r.Ok? ==> HasType(r.value, ty)
  {
    Decode(AsWritten, mode, ty, t, Default(ty))
  }
}
