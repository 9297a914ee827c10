/** The loops impl::dynamic_converter_impl runs, one method per container kind, each
    proved to compute what the functions of module Converter say. Element, value and
    member conversions are the recursive `to`/`from` calls, i.e. Encode and Decode. */
module ConverterLoops {
  import opened Dynamic
  import opened Schema
  import opened Converter

  /** Sequence `to`: reset the output to an empty array, then push back the encoding
      of each element in turn. */
  method EncodeSequence(e: Ty, xs: seq<Value>) returns (output: Tree)
    requires WellFormed(e) && forall i | 0 <= i < |xs| :: HasType(xs[i], e)
    ensures output.Arr? && |output.items| == |xs|
    ensures forall i | 0 <= i < |xs| :: output.items[i] == Encode(e, xs[i])
    ensures output == EncodeItems(e, xs)
  {
    output := Arr([]);
    var i := 0;
    while i < |xs|
      invariant 0 <= i <= |xs|
      invariant output.Arr? && |output.items| == i
      invariant forall j | 0 <= j < i :: output.items[j] == Encode(e, xs[j])
    {
      var value := Encode(e, xs[i]);
      output := Arr(output.items + [value]);
      i := i + 1;
    }
  }

  /** Map `to`: reset the output to an empty object, then for each entry, in the
      map's iteration order, write the encoding of its value under its key. */
  method EncodeMap(vt: Ty, m: map<string, Value>) returns (output: Tree)
    requires WellFormed(vt) && forall k | k in m :: HasType(m[k], vt)
    ensures output.Obj? && output.fields.Keys == m.Keys
    ensures forall k | k in m :: output.fields[k] == Encode(vt, m[k])
    ensures output == EncodeEntries(vt, m)
  {
    var fields: map<string, Tree> := map[];
    var rest := m.Keys;
    while rest != {}
      invariant rest <= m.Keys
      invariant fields.Keys == m.Keys - rest
      invariant forall k | k in fields :: fields[k] == Encode(vt, m[k])
      decreases rest
    {
      var k :| k in rest;
      fields := fields[k := Encode(vt, m[k])];
      rest := rest - {k};
    }
    output := Obj(fields);
  }

  /** Struct `to`: reset the output to an empty object, then, property by property in
      tuple order, write the encoding of the member under the property's name. */
  method EncodeStruct(fs: seq<Field>, members: seq<Value>) returns (output: Tree)
    requires WellFormed(TStruct(fs)) && HasType(VStruct(members), TStruct(fs))
    ensures output.Obj?
    ensures forall n :: n in output.fields <==> exists i | 0 <= i < |fs| :: fs[i].name == n
    ensures forall i | 0 <= i < |fs| :: output.fields[fs[i].name] == Encode(fs[i].ty, members[i])
    ensures output == EncodeMembers(fs, members)
  {
    var fields: map<string, Tree> := map[];
    for i := 0 to |fs|
      invariant forall n :: n in fields <==> exists j | 0 <= j < i :: fs[j].name == n
      invariant forall j | 0 <= j < i :: fields[fs[j].name] == Encode(fs[j].ty, members[j])
    {
      fields := fields[fs[i].name := Encode(fs[i].ty, members[i])];
    }
    output := Obj(fields);
    var expected := EncodeMembers(fs, members);
    forall n | n in fields
      ensures n in expected.fields && fields[n] == expected.fields[n]
    {
      var j :| 0 <= j < |fs| && fs[j].name == n;
    }
    assert fields == expected.fields;
  }

  /** Sequence `from`: iterate the array (a non-array throws); for each item append a
      default-constructed element and decode the item into it. */
  method DecodeSequence(rev: Revision, mode: Mode, e: Ty, t: Tree, prior: seq<Value>) returns (r: Result<Value>)
    requires WellFormed(e) && forall i | 0 <= i < |prior| :: HasType(prior[i], e)
    ensures r == DecodeItems(rev, mode, e, t, prior)
  {
    if !t.Arr? {
      return Thrown;
    }
    var n := |prior|;
    var output := prior;
    ghost var appended: seq<Value> := [];
    var i := 0;
    while i < |t.items|
      invariant 0 <= i <= |t.items| && |appended| == i
      invariant output == prior + appended
      invariant forall j | 0 <= j < i :: Decode(rev, mode, e, t.items[j], Default(e)) == Ok(appended[j])
    {
      output := output + [Default(e)];
      var item := Decode(rev, mode, e, t.items[i], output[n + i]);
      if item.Thrown? {
        return Thrown;
      }
      output := output[n + i := item.value];
      appended := appended + [item.value];
      i := i + 1;
    }
    DecodeItemsOf(rev, mode, e, t, prior, appended);
    r := Ok(VSeq(output));
  }

  /** Map `from`: iterate the object's entries (a non-object throws), in an order the
      object does not specify; decode the key and the value into default-constructed
      ones and emplace them, which leaves an entry already under that key alone. */
  method DecodeMap(rev: Revision, mode: Mode, vt: Ty, t: Tree, prior: map<string, Value>) returns (r: Result<Value>)
    requires WellFormed(vt) && forall k | k in prior :: HasType(prior[k], vt)
    ensures r == DecodeEntries(rev, mode, vt, t, prior)
  {
    if !t.Obj? {
      return Thrown;
    }
    var output := prior;
    ghost var emplaced: map<string, Value> := map[];
    var rest := t.fields.Keys;
    while rest != {}
      invariant rest <= t.fields.Keys && emplaced.Keys == t.fields.Keys - rest
      invariant forall k | k in emplaced :: Decode(rev, mode, vt, t.fields[k], Default(vt)) == Ok(emplaced[k])
      invariant output == emplaced + prior
      decreases rest
    {
      var k :| k in rest;
      var key := k;  // a string key is decoded verbatim
      var value := Decode(rev, mode, vt, t.fields[k], Default(vt));
      if value.Thrown? {
        return Thrown;
      }
      EmplaceKeepsOrder(output, emplaced, prior, key, value.value);
      if key !in output {
        output := output[key := value.value];
      }
      emplaced := emplaced[k := value.value];
      rest := rest - {k};
    }
    DecodeEntriesOf(rev, mode, vt, t, prior, emplaced);
    r := Ok(VMap(output));
  }

  /** emplace after emplace: inserting a key not yet emplaced, unless the map already
      holds it, keeps the map equal to the emplaced entries under the prior ones. */
  lemma EmplaceKeepsOrder(output: map<string, Value>, emplaced: map<string, Value>, prior: map<string, Value>, k: string, v: Value)
    requires output == emplaced + prior && k !in emplaced
    ensures (if k in output then output else output[k := v]) == emplaced[k := v] + prior
  {
  }

  /** Struct `from`: property by property in tuple order, test whether the key is in
      the input (count() throws on a non-object), skip the property when the guard
      says so, and otherwise decode `input[name]` into the member. */
  method DecodeStruct(rev: Revision, mode: Mode, fs: seq<Field>, t: Tree, prior: seq<Value>) returns (r: Result<Value>)
    requires WellFormed(TStruct(fs)) && HasType(VStruct(prior), TStruct(fs))
    ensures r == DecodeMembers(rev, mode, fs, t, prior)
  {
    var members := prior;
    for i := 0 to |fs|
      invariant |members| == |fs|
      invariant 0 < i ==> t.Obj?
      invariant forall j | 0 <= j < i :: FieldStep(rev, mode, fs, t, prior, j).Ok?
      invariant forall j | 0 <= j < i :: members[j] == FieldStep(rev, mode, fs, t, prior, j).value
      invariant forall j | i <= j < |fs| :: members[j] == prior[j]
    {
      if !t.Obj? {
        return Thrown;
      }
      var present := fs[i].name in t.fields;
      if !Skips(rev, mode, present) {
        if !present {
          return Thrown;
        }
        var m := Decode(rev, mode, fs[i].ty, t.fields[fs[i].name], members[i]);
        if m.Thrown? {
          return Thrown;
        }
        members := members[i := m.value];
      }
    }
    if |fs| == 0 {
      assert members == prior;
    } else {
      assert members == seq(|fs|, i requires 0 <= i < |fs| => FieldStep(rev, mode, fs, t, prior, i).value);
    }
    r := Ok(VStruct(members));
  }
}
