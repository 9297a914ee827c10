/** The two record types the header declares (Person2 and Person) and the value its
    main function builds, with what the converter does to them. */
module Demo {
  import opened Dynamic
  import opened Schema
  import opened Converter
  import opened ConverterProperties

  /** The binary64 value nearest to 3.1415926, Person2's initialiser for `money`. */
  const Pi: Double := 0x400921fb4d12d84a

  /** Person2, with PROPERTIES4(Person2, name, age, telphones, money). */
  const Person2Ty: Ty :=
    TStruct([Field("name", TString, VStr("")),
             Field("age", TInt, VInt(100)),
             Field("telphones", TSeq(TString), VSeq([])),
             Field("money", TDouble, VDouble(Pi))])

  /** Person, with PROPERTIES4(Person, name, age, telphones, relationships). */
  const PersonTy: Ty :=
    TStruct([Field("name", TString, VStr("")),
             Field("age", TInt, VInt(100)),
             Field("telphones", TSeq(TString), VSeq([])),
             Field("relationships", TMap(Person2Ty), VMap(map[]))])

  function Strings(ss: seq<string>): (r: Value)
    ensures HasType(r, TSeq(TString)) && |r.elems| == |ss|
  {
    VSeq(seq(|ss|, i requires 0 <= i < |ss| => VStr(ss[i])))
  }

  /** A Person2 with the given name and telephone numbers, the rest at defaults. */
  function Relative(name: string, phones: seq<string>): (r: Value)
    ensures HasType(r, Person2Ty)
  {
    VStruct([VStr(name), VInt(100), Strings(phones), VDouble(Pi)])
  }

  /** The Person built by main. */
  const P: Value :=
    VStruct([VStr("name"), VInt(100), Strings(["123", "456", "789"]),
             VMap(map["父亲" := Relative("父亲", ["abc", "efg", "xyz"]),
                      "母亲" := Relative("母亲", ["111", "222", "333"])])])

  /** Person2 is a schema the compiler accepts and its member containers start empty. */
  lemma Person2WellFormed()
    ensures WellFormed(Person2Ty) && CleanDefaults(Person2Ty)
  {
    var fs := Person2Ty.fields;
    forall i, j | 0 <= i < j < |fs|
      ensures fs[i].name != fs[j].name
    {
      assert |fs[i].name| != |fs[j].name|;
    }
    forall i | 0 <= i < |fs|
      ensures WellFormed(fs[i].ty) && HasType(fs[i].init, fs[i].ty)
    {
    }
  }

  /** So is Person, and p is a Person. */
  lemma PersonWellFormed()
    ensures WellFormed(PersonTy) && CleanDefaults(PersonTy) && HasType(P, PersonTy)
  {
    Person2WellFormed();
    var fs := PersonTy.fields;
    forall i, j | 0 <= i < j < |fs|
      ensures fs[i].name != fs[j].name
    {
      assert |fs[i].name| != |fs[j].name|;
    }
    forall i | 0 <= i < |fs|
      ensures WellFormed(fs[i].ty) && HasType(fs[i].init, fs[i].ty)
    {
    }
    assert HasType(P.members[3], TMap(Person2Ty));
  }

  /** Every number of p sits at its initialiser, so p fits a default Person even for
      the as-written decoder. */
  lemma DemoFits()
    ensures WellFormed(PersonTy) && HasType(P, PersonTy)
    ensures Fits(AsWritten, PersonTy, Default(PersonTy), P)
  {
    PersonWellFormed();
    var rels := P.members[3].entries;
    forall k | k in rels
      ensures Fits(AsWritten, Person2Ty, Default(Person2Ty), rels[k])
    {
      if k == "父亲" {
        RelativeFits("父亲", ["abc", "efg", "xyz"]);
      } else {
        RelativeFits("母亲", ["111", "222", "333"]);
      }
    }
  }

  lemma RelativeFits(name: string, phones: seq<string>)
    ensures WellFormed(Person2Ty)
    ensures Fits(AsWritten, Person2Ty, Default(Person2Ty), Relative(name, phones))
  {
    Person2WellFormed();
  }

  /** main's round trip: from_dynamic<Person>(std::move(to_dynamic(p))) gives p back,
      so the second printed document equals the first. Every number of p is at its
      initialiser, which is why the as-written numeric decode does not show here. */
  lemma DemoRoundTrip()
    ensures WellFormed(PersonTy) && HasType(P, PersonTy)
    ensures FromDynamic(Consume, PersonTy, Encode(PersonTy, P)) == Ok(P)
    ensures Encode(PersonTy, FromDynamic(Consume, PersonTy, Encode(PersonTy, P)).value) == Encode(PersonTy, P)
  {
    PersonWellFormed();
    DemoFits();
    DecodeEncoded(AsWritten, Consume, PersonTy, P, Default(PersonTy));
    MergeFits(AsWritten, Consume, PersonTy, Default(PersonTy), P);
  }

  /** A Person2 decode into a default-constructed Person2 is settled property by
      property. */
  lemma Person2Decode(rev: Revision, mode: Mode, t: Tree, expected: seq<Value>)
    requires WellFormed(Person2Ty) && t.Obj? && |expected| == 4
    requires forall i | 0 <= i < 4 ::
               FieldStep(rev, mode, Person2Ty.fields, t, Default(Person2Ty).members, i) == Ok(expected[i])
    ensures Decode(rev, mode, Person2Ty, t, Default(Person2Ty)) == Ok(VStruct(expected))
  {
    var fs, prior := Person2Ty.fields, Default(Person2Ty).members;
    assert |fs| == 4 && forall i | 0 <= i < |fs| :: FieldStep(rev, mode, fs, t, prior, i).Ok?;
    var members := seq(|fs|, i requires 0 <= i < |fs| => FieldStep(rev, mode, fs, t, prior, i).value);
    assert DecodeMembers(rev, mode, fs, t, prior) == Ok(VStruct(members));
    assert Decode(rev, mode, Person2Ty, t, Default(Person2Ty)) == DecodeMembers(rev, mode, fs, t, prior);
    assert members == expected;
  }

  /** The tree of a Person2 that carries only a name. */
  const NameOnly: Tree := Obj(map["name" := Str("x")])

  /** A consuming decode of {"name": "x"} sets the name and leaves every absent
      property at its initialiser. */
  lemma MissingFieldKeepsDefault()
    ensures WellFormed(Person2Ty)
    ensures FromDynamic(Consume, Person2Ty, NameOnly) ==
            Ok(VStruct([VStr("x"), VInt(100), VSeq([]), VDouble(Pi)]))
  {
    Person2WellFormed();
    var fs, prior := Person2Ty.fields, Default(Person2Ty).members;
    var expected := [VStr("x"), VInt(100), VSeq([]), VDouble(Pi)];
    assert "age" != "name" && "telphones" != "name" && "money" != "name";
    forall i | 0 <= i < 4
      ensures FieldStep(AsWritten, Consume, fs, NameOnly, prior, i) == Ok(expected[i])
    {
    }
    Person2Decode(AsWritten, Consume, NameOnly, expected);
  }

  /** As written, the borrowing decode of {"name": "x"} throws: it skips the one key
      that is present and looks up "age" through const operator[], which is absent. */
  lemma BorrowedNameOnlyThrows(conv: Coercion)
    ensures WellFormed(Person2Ty)
    ensures FromDynamic(Borrow(conv), Person2Ty, NameOnly) == Thrown
  {
    Person2WellFormed();
    var fs, prior := Person2Ty.fields, Default(Person2Ty).members;
    assert "age" !in NameOnly.fields;
    assert FieldStep(AsWritten, Borrow(conv), fs, NameOnly, prior, 1) == Thrown;
    assert Decode(AsWritten, Borrow(conv), Person2Ty, NameOnly, Default(Person2Ty)) ==
           DecodeMembers(AsWritten, Borrow(conv), fs, NameOnly, prior);
  }

  /** As written, decoding main's document through the borrowing overload gives a
      default-constructed Person, not p: every key is present, so every property is
      skipped. Corrected, it gives p back. */
  lemma BorrowedDecodeDropsInput(conv: Coercion)
    ensures WellFormed(PersonTy) && HasType(P, PersonTy)
    ensures FromDynamic(Borrow(conv), PersonTy, Encode(PersonTy, P)) == Ok(Default(PersonTy))
    ensures Default(PersonTy) != P
    ensures Decode(Corrected, Borrow(conv), PersonTy, Encode(PersonTy, P), Default(PersonTy)) == Ok(P)
  {
    PersonWellFormed();
    var fs := PersonTy.fields;
    var prior := Default(PersonTy).members;
    BorrowStructIgnoresInput(conv, fs, Encode(PersonTy, P), prior);
    assert Default(PersonTy).members[0] != P.members[0];
    CorrectedRoundTrip(Borrow(conv), PersonTy, P);
  }

  /** The tree of a Person2 that carries only an age. */
  const AgeOnly: Tree := Obj(map["age" := Int(30)])

  /** As written, a consuming decode of {"age": 30} leaves age at 100: the integral
      `from` assigns to its by-value parameter. Corrected, age becomes 30. */
  lemma AgeIsDropped()
    ensures WellFormed(Person2Ty)
    ensures FromDynamic(Consume, Person2Ty, AgeOnly) == Ok(Default(Person2Ty))
    ensures Decode(Corrected, Consume, Person2Ty, AgeOnly, Default(Person2Ty)) ==
            Ok(VStruct([VStr(""), VInt(30), VSeq([]), VDouble(Pi)]))
  {
    Person2WellFormed();
    var fs, prior := Person2Ty.fields, Default(Person2Ty).members;
    var corrected := [VStr(""), VInt(30), VSeq([]), VDouble(Pi)];
    assert "name" != "age" && "telphones" != "age" && "money" != "age";
    forall i | 0 <= i < 4
      ensures FieldStep(AsWritten, Consume, fs, AgeOnly, prior, i) == Ok(prior[i])
      ensures FieldStep(Corrected, Consume, fs, AgeOnly, prior, i) == Ok(corrected[i])
    {
    }
    Person2Decode(AsWritten, Consume, AgeOnly, prior);
    Person2Decode(Corrected, Consume, AgeOnly, corrected);
  }
}
