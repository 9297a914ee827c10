/** What the converter promises, stated over all inputs: which trees a consuming
    decode accepts, what decoding an encoding yields, the round trips, and the
    behaviour of the borrowing struct decode and of numeric decode as written. */
module ConverterProperties {
  import opened Dynamic
  import opened Schema
  import opened Converter

  /** A consuming decode succeeds exactly on the trees that conform to the type:
      every kind mismatch, at any depth, makes it throw. */
  lemma {:induction false} ConsumeOkIffConforms(rev: Revision, ty: Ty, t: Tree, prior: Value)
    requires WellFormed(ty) && HasType(prior, ty)
    ensures Decode(rev, Consume, ty, t, prior).Ok? <==> Conforms(ty, t)
    decreases ty
  {
    match ty
    case TSeq(e) =>
      if t.Arr? {
        forall i | 0 <= i < |t.items|
          ensures Decode(rev, Consume, e, t.items[i], Default(e)).Ok? <==> Conforms(e, t.items[i])
        {
          ConsumeOkIffConforms(rev, e, t.items[i], Default(e));
        }
      }
    case TMap(vt) =>
      if t.Obj? {
        forall k | k in t.fields
          ensures Decode(rev, Consume, vt, t.fields[k], Default(vt)).Ok? <==> Conforms(vt, t.fields[k])
        {
          ConsumeOkIffConforms(rev, vt, t.fields[k], Default(vt));
        }
      }
    case TStruct(fs) =>
      assert Decode(rev, Consume, ty, t, prior) == DecodeMembers(rev, Consume, fs, t, prior.members);
      if t.Obj? {
        forall i | 0 <= i < |fs|
          ensures FieldStep(rev, Consume, fs, t, prior.members, i).Ok? <==>
                  (fs[i].name in t.fields ==> Conforms(fs[i].ty, t.fields[fs[i].name]))
        {
          if fs[i].name in t.fields {
            ConsumeOkIffConforms(rev, fs[i].ty, t.fields[fs[i].name], prior.members[i]);
          }
        }
      }
    case _ =>
  }

  /** A consuming decode of an encoding never throws. */
  lemma ConsumeAcceptsEncoding(rev: Revision, ty: Ty, v: Value, prior: Value)
    requires WellFormed(ty) && HasType(v, ty) && HasType(prior, ty)
    ensures Decode(rev, Consume, ty, Encode(ty, v), prior).Ok?
  {
    ConsumeOkIffConforms(rev, ty, Encode(ty, v), prior);
  }

  /** Reference definition of what decoding the encoding of `v` into `prior` yields,
      on values alone: a numeric member keeps its prior value (as written), a string
      is replaced, a sequence gets the elements appended after its prior ones, a map
      keeps its prior entries and gains the others, and a struct is decoded member
      by member, except by the as-written borrowing decode, which leaves it alone. */
  function Merge(rev: Revision, mode: Mode, ty: Ty, prior: Value, v: Value): (r: Value)
    requires WellFormed(ty) && HasType(prior, ty) && HasType(v, ty)
    decreases ty, 1
  {
    match ty
    case TInt => if rev.Corrected? then v else prior
    case TDouble => if rev.Corrected? then v else prior
    case TString => v
    case TSeq(e) => VSeq(prior.elems + MergeItems(rev, mode, e, v.elems))
    case TMap(vt) => VMap(MergeEntries(rev, mode, vt, v.entries) + prior.entries)
    case TStruct(fs) =>
      if rev.AsWritten? && mode.Borrow? then prior
      else VStruct(MergeMembers(rev, mode, fs, prior.members, v.members))
  }

  /** The elements a sequence decode appends: each element merged into a default one. */
  function MergeItems(rev: Revision, mode: Mode, e: Ty, xs: seq<Value>): (r: seq<Value>)
    requires WellFormed(e) && HasType(VSeq(xs), TSeq(e))
    decreases TSeq(e), 0
  {
    seq(|xs|, i requires 0 <= i < |xs| => Merge(rev, mode, e, Default(e), xs[i]))
  }

  /** The entries a map decode emplaces: each value merged into a default one. */
  function MergeEntries(rev: Revision, mode: Mode, vt: Ty, m: map<string, Value>): (r: map<string, Value>)
    requires WellFormed(vt) && HasType(VMap(m), TMap(vt))
    decreases TMap(vt), 0
  {
    map k | k in m :: Merge(rev, mode, vt, Default(vt), m[k])
  }

  /** The members of a struct decoded member by member. */
  function MergeMembers(rev: Revision, mode: Mode, fs: seq<Field>, prior: seq<Value>, ms: seq<Value>): (r: seq<Value>)
    requires WellFormed(TStruct(fs)) && HasType(VStruct(prior), TStruct(fs)) && HasType(VStruct(ms), TStruct(fs))
    decreases TStruct(fs), 0
  {
    seq(|fs|, i requires 0 <= i < |fs| => Merge(rev, mode, fs[i].ty, prior[i], ms[i]))
  }

  /** Decoding an encoding, in either mode and either revision, succeeds and yields
      Merge of the prior object and the encoded value. */
  lemma {:induction false} DecodeEncoded(rev: Revision, mode: Mode, ty: Ty, v: Value, prior: Value)
    requires WellFormed(ty) && HasType(v, ty) && HasType(prior, ty)
    ensures Decode(rev, mode, ty, Encode(ty, v), prior) == Ok(Merge(rev, mode, ty, prior, v))
    decreases ty, 1
  {
    match ty
    case TInt =>
    case TDouble =>
    case TString =>
    case TSeq(e) => DecodeEncodedItems(rev, mode, e, v.elems, prior.elems);
    case TMap(vt) => DecodeEncodedEntries(rev, mode, vt, v.entries, prior.entries);
    case TStruct(fs) => DecodeEncodedMembers(rev, mode, fs, v.members, prior.members);
  }

  lemma {:induction false} DecodeEncodedItems(rev: Revision, mode: Mode, e: Ty, xs: seq<Value>, prior: seq<Value>)
    requires WellFormed(e) && HasType(VSeq(xs), TSeq(e)) && HasType(VSeq(prior), TSeq(e))
    ensures DecodeItems(rev, mode, e, EncodeItems(e, xs), prior) == Ok(VSeq(prior + MergeItems(rev, mode, e, xs)))
    decreases TSeq(e), 0
  {
    var t := EncodeItems(e, xs);
    var merged := MergeItems(rev, mode, e, xs);
    forall i | 0 <= i < |t.items|
      ensures Decode(rev, mode, e, t.items[i], Default(e)) == Ok(merged[i])
    {
      DecodeEncoded(rev, mode, e, xs[i], Default(e));
    }
    DecodeItemsOf(rev, mode, e, t, prior, merged);
  }

  lemma {:induction false} DecodeEncodedEntries(rev: Revision, mode: Mode, vt: Ty, m: map<string, Value>, prior: map<string, Value>)
    requires WellFormed(vt) && HasType(VMap(m), TMap(vt)) && HasType(VMap(prior), TMap(vt))
    ensures DecodeEntries(rev, mode, vt, EncodeEntries(vt, m), prior) == Ok(VMap(MergeEntries(rev, mode, vt, m) + prior))
    decreases TMap(vt), 0
  {
    var t := EncodeEntries(vt, m);
    var merged := MergeEntries(rev, mode, vt, m);
    forall k | k in t.fields
      ensures Decode(rev, mode, vt, t.fields[k], Default(vt)) == Ok(merged[k])
    {
      DecodeEncoded(rev, mode, vt, m[k], Default(vt));
    }
    DecodeEntriesOf(rev, mode, vt, t, prior, merged);
  }

  lemma {:induction false} DecodeEncodedMembers(rev: Revision, mode: Mode, fs: seq<Field>, ms: seq<Value>, prior: seq<Value>)
    requires WellFormed(TStruct(fs)) && HasType(VStruct(ms), TStruct(fs)) && HasType(VStruct(prior), TStruct(fs))
    ensures DecodeMembers(rev, mode, fs, EncodeMembers(fs, ms), prior) ==
              Ok(VStruct(if rev.AsWritten? && mode.Borrow? then prior else MergeMembers(rev, mode, fs, prior, ms)))
    decreases TStruct(fs), 0
  {
    var t := EncodeMembers(fs, ms);
    if |fs| == 0 {
      assert prior == [] == ms;
      assert MergeMembers(rev, mode, fs, prior, ms) == [];
    } else if rev.AsWritten? && mode.Borrow? {
      forall i | 0 <= i < |fs|
        ensures FieldStep(rev, mode, fs, t, prior, i) == Ok(prior[i])
      {
        assert fs[i].name in t.fields;
      }
      assert prior == seq(|fs|, i requires 0 <= i < |fs| => FieldStep(rev, mode, fs, t, prior, i).value);
    } else {
      forall i | 0 <= i < |fs|
        ensures FieldStep(rev, mode, fs, t, prior, i) == Ok(Merge(rev, mode, fs[i].ty, prior[i], ms[i]))
      {
        assert fs[i].name in t.fields;
        DecodeEncoded(rev, mode, fs[i].ty, ms[i], prior[i]);
      }
      assert seq(|fs|, i requires 0 <= i < |fs| => FieldStep(rev, mode, fs, t, prior, i).value)
          == MergeMembers(rev, mode, fs, prior, ms);
    }
  }

  /** `v` is what the decode of its own encoding into `prior` gives back: every
      container `prior` holds is empty and, for the as-written decoder, every number
      already equals the prior one. */
  predicate Fits(rev: Revision, ty: Ty, prior: Value, v: Value)
    requires WellFormed(ty) && HasType(prior, ty) && HasType(v, ty)
    decreases ty
  {
    match ty
    case TInt => rev.Corrected? || prior == v
    case TDouble => rev.Corrected? || prior == v
    case TString => true
    case TSeq(e) => prior.elems == [] && forall i | 0 <= i < |v.elems| :: Fits(rev, e, Default(e), v.elems[i])
    case TMap(vt) => prior.entries == map[] && forall k | k in v.entries :: Fits(rev, vt, Default(vt), v.entries[k])
    case TStruct(fs) => forall i | 0 <= i < |fs| :: Fits(rev, fs[i].ty, prior.members[i], v.members[i])
  }

  lemma {:induction false} MergeFits(rev: Revision, mode: Mode, ty: Ty, prior: Value, v: Value)
    requires WellFormed(ty) && HasType(prior, ty) && HasType(v, ty)
    requires Fits(rev, ty, prior, v) && (rev.Corrected? || mode.Consume?)
    ensures Merge(rev, mode, ty, prior, v) == v
    decreases ty
  {
    match ty
    case TSeq(e) =>
      forall i | 0 <= i < |v.elems| ensures Merge(rev, mode, e, Default(e), v.elems[i]) == v.elems[i] {
        MergeFits(rev, mode, e, Default(e), v.elems[i]);
      }
      assert Merge(rev, mode, ty, prior, v).elems == v.elems;
    case TMap(vt) =>
      forall k | k in v.entries ensures Merge(rev, mode, vt, Default(vt), v.entries[k]) == v.entries[k] {
        MergeFits(rev, mode, vt, Default(vt), v.entries[k]);
      }
      assert Merge(rev, mode, ty, prior, v).entries == v.entries;
    case TStruct(fs) =>
      forall i | 0 <= i < |fs| ensures Merge(rev, mode, fs[i].ty, prior.members[i], v.members[i]) == v.members[i] {
        MergeFits(rev, mode, fs[i].ty, prior.members[i], v.members[i]);
      }
      assert Merge(rev, mode, ty, prior, v).members == v.members;
    case _ =>
  }

  /** With clean defaults, a default-constructed object holds no container content. */
  lemma DefaultSettled(ty: Ty)
    requires WellFormed(ty) && CleanDefaults(ty)
    ensures Settled(ty, Default(ty))
  {
  }

  /** Every value fits a settled prior object when the schema has clean defaults and,
      for the as-written decoder, no numbers. */
  lemma {:induction false} SettledFits(rev: Revision, ty: Ty, prior: Value, v: Value)
    requires WellFormed(ty) && CleanDefaults(ty) && HasType(prior, ty) && HasType(v, ty)
    requires Settled(ty, prior) && (rev.Corrected? || NumericFree(ty))
    ensures Fits(rev, ty, prior, v)
    decreases ty
  {
    match ty
    case TSeq(e) =>
      DefaultSettled(e);
      forall i | 0 <= i < |v.elems| ensures Fits(rev, e, Default(e), v.elems[i]) {
        SettledFits(rev, e, Default(e), v.elems[i]);
      }
    case TMap(vt) =>
      DefaultSettled(vt);
      forall k | k in v.entries ensures Fits(rev, vt, Default(vt), v.entries[k]) {
        SettledFits(rev, vt, Default(vt), v.entries[k]);
      }
    case TStruct(fs) =>
      forall i | 0 <= i < |fs| ensures Fits(rev, fs[i].ty, prior.members[i], v.members[i]) {
        SettledFits(rev, fs[i].ty, prior.members[i], v.members[i]);
      }
    case _ =>
  }

  /** The round trip of the source's own demonstration: for data built from strings,
      sequences, string-keyed maps and structs whose member containers start empty,
      from_dynamic<T>(std::move(to_dynamic(x))) gives back x. */
  lemma RoundTrip(ty: Ty, v: Value)
    requires WellFormed(ty) && CleanDefaults(ty) && NumericFree(ty) && HasType(v, ty)
    ensures FromDynamic(Consume, ty, Encode(ty, v)) == Ok(v)
  {
    DefaultSettled(ty);
    SettledFits(AsWritten, ty, Default(ty), v);
    DecodeEncoded(AsWritten, Consume, ty, v, Default(ty));
    MergeFits(AsWritten, Consume, ty, Default(ty), v);
  }

  /** With both defects corrected the round trip holds in both modes and with
      numbers too. */
  lemma CorrectedRoundTrip(mode: Mode, ty: Ty, v: Value)
    requires WellFormed(ty) && CleanDefaults(ty) && HasType(v, ty)
    ensures Decode(Corrected, mode, ty, Encode(ty, v), Default(ty)) == Ok(v)
  {
    DefaultSettled(ty);
    SettledFits(Corrected, ty, Default(ty), v);
    DecodeEncoded(Corrected, mode, ty, v, Default(ty));
    MergeFits(Corrected, mode, ty, Default(ty), v);
  }

  /** The borrowing struct decode as written never reads a member from its input: it
      succeeds exactly when every property key is present (or there is none) and then
      leaves the object as it was; a single absent key makes it throw. */
  lemma BorrowStructIgnoresInput(conv: Coercion, fs: seq<Field>, t: Tree, prior: seq<Value>)
    requires WellFormed(TStruct(fs)) && HasType(VStruct(prior), TStruct(fs))
    ensures DecodeMembers(AsWritten, Borrow(conv), fs, t, prior).Ok? <==>
            |fs| == 0 || (t.Obj? && forall i | 0 <= i < |fs| :: fs[i].name in t.fields)
    ensures DecodeMembers(AsWritten, Borrow(conv), fs, t, prior).Ok? ==>
            DecodeMembers(AsWritten, Borrow(conv), fs, t, prior).value == VStruct(prior)
  {
    if |fs| > 0 && t.Obj? {
      if forall i | 0 <= i < |fs| :: fs[i].name in t.fields {
        assert prior == seq(|fs|, i requires 0 <= i < |fs| => FieldStep(AsWritten, Borrow(conv), fs, t, prior, i).value);
      } else {
        var i :| 0 <= i < |fs| && fs[i].name !in t.fields;
        assert FieldStep(AsWritten, Borrow(conv), fs, t, prior, i).Thrown?;
      }
    }
  }

  /** The consuming struct decode, for every tree: it succeeds exactly when the tree
      is an object (or there is no property) and every present key decodes; then a
      member whose key is present is decoded from that key's tree into the prior
      member, and a member whose key is absent keeps its prior value. */
  lemma ConsumeStructMembers(rev: Revision, fs: seq<Field>, t: Tree, prior: seq<Value>)
    requires WellFormed(TStruct(fs)) && HasType(VStruct(prior), TStruct(fs))
    ensures var r := DecodeMembers(rev, Consume, fs, t, prior);
            r.Ok? <==> |fs| == 0 ||
                       (t.Obj? && forall i | 0 <= i < |fs| && fs[i].name in t.fields ::
                                    Decode(rev, Consume, fs[i].ty, t.fields[fs[i].name], prior[i]).Ok?)
    ensures var r := DecodeMembers(rev, Consume, fs, t, prior);
            r.Ok? ==> |r.value.members| == |fs| &&
                      forall i | 0 <= i < |fs| ::
                        if t.Obj? && fs[i].name in t.fields
                        then Decode(rev, Consume, fs[i].ty, t.fields[fs[i].name], prior[i]) == Ok(r.value.members[i])
                        else r.value.members[i] == prior[i]
  {
    if |fs| > 0 && t.Obj? {
      forall i | 0 <= i < |fs|
        ensures FieldStep(rev, Consume, fs, t, prior, i) ==
                if fs[i].name in t.fields then Decode(rev, Consume, fs[i].ty, t.fields[fs[i].name], prior[i])
                else Ok(prior[i])
      {
      }
    }
  }

  /** from_dynamic through the consuming overload: on success, every property whose
      key is absent is left at its initialiser, and every property whose key is
      present holds its key's tree decoded into the initialiser. */
  lemma FromDynamicStruct(fs: seq<Field>, t: Tree)
    requires WellFormed(TStruct(fs))
    ensures var r := FromDynamic(Consume, TStruct(fs), t);
            r.Ok? ==> forall i | 0 <= i < |fs| ::
                        if t.Obj? && fs[i].name in t.fields
                        then Decode(AsWritten, Consume, fs[i].ty, t.fields[fs[i].name], fs[i].init) == Ok(r.value.members[i])
                        else r.value.members[i] == fs[i].init
  {
    ConsumeStructMembers(AsWritten, fs, t, Default(TStruct(fs)).members);
  }

  /** Numeric decode as written: the target is a by-value copy, so a successful decode
      leaves the caller's number as it was; the consuming overload accepts only the
      exact kind (getInt, getDouble). String decode takes the stored string verbatim
      whatever the target held, and throws on any other kind. */
  lemma ScalarDecode(mode: Mode, t: Tree, pi: Value, pd: Value, ps: Value)
    requires pi.VInt? && pd.VDouble? && ps.VStr?
    ensures Decode(AsWritten, mode, TInt, t, pi).Ok? ==> Decode(AsWritten, mode, TInt, t, pi).value == pi
    ensures Decode(AsWritten, mode, TDouble, t, pd).Ok? ==> Decode(AsWritten, mode, TDouble, t, pd).value == pd
    ensures Decode(AsWritten, Consume, TInt, t, pi).Ok? <==> t.Int?
    ensures Decode(AsWritten, Consume, TDouble, t, pd).Ok? <==> t.Dbl?
    ensures Decode(AsWritten, mode, TString, t, ps) == if t.Str? then Ok(VStr(t.s)) else Thrown
  {
  }

  /** Map decode emplaces: every key the map held keeps its value, and the result
      holds exactly the prior keys and the object's keys. */
  lemma MapDecodeKeepsEntries(rev: Revision, mode: Mode, vt: Ty, t: Tree, prior: map<string, Value>)
    requires WellFormed(vt) && forall k | k in prior :: HasType(prior[k], vt)
    ensures var r := DecodeEntries(rev, mode, vt, t, prior);
            r.Ok? ==> t.Obj? && r.value.entries.Keys == prior.Keys + t.fields.Keys &&
                      forall k | k in prior :: r.value.entries[k] == prior[k]
  {
  }

  /** Sequence decode appends: the prior elements stay as a prefix and the length
      grows by exactly the number of array items. */
  lemma SequenceDecodeAppends(rev: Revision, mode: Mode, e: Ty, t: Tree, prior: seq<Value>)
    requires WellFormed(e) && forall i | 0 <= i < |prior| :: HasType(prior[i], e)
    ensures var r := DecodeItems(rev, mode, e, t, prior);
            r.Ok? ==> t.Arr? && |r.value.elems| == |prior| + |t.items| && r.value.elems[..|prior|] == prior
  {
  }
}
