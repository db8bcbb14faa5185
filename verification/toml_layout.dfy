/**
 * The shape of `objectToToml`'s output: which lines a field produces, where
 * they land, and what an omitted field leaves behind.
 */
module TomlLayout {
  import opened TomlValue
  import opened TomlEncode
  import Numerals

  /** The first character tells the kind of value a rendering stands for. */
  lemma RenderingKind(v: Value)
    ensures ValueToToml(v) != ""
    ensures ValueToToml(v)[0] == '[' <==> v.Arr?
    ensures ValueToToml(v)[0] == '{' <==> v.Obj?
    ensures ValueToToml(v)[0] == '"' <==> v.Str? || v.Null?
  {
    if v.Num? {
      var t := Numerals.IntToString(v.n);
      Numerals.IntToStringSign(v.n);
      if v.n >= 0 {
        Numerals.NatToStringDigits(v.n);
        assert Numerals.IsDigit(t[0]);
      }
    }
  }

  /** There are no `key = value` lines exactly when no field is simple; never more lines than fields. */
  lemma {:induction false} SimpleLinesEmpty(fields: Fields)
    ensures SimpleLines(fields) == [] <==> forall i :: 0 <= i < |fields| ==> !IsSimple(fields[i].1)
    ensures |SimpleLines(fields)| <= |fields|
  {
    if |fields| > 0 {
      SimpleLinesEmpty(fields[1..]);
      assert (forall i :: 0 <= i < |fields[1..]| ==> !IsSimple(fields[1..][i].1))
        <==> (forall i :: 1 <= i < |fields| ==> !IsSimple(fields[i].1));
    }
  }

  /** The `[prefix]` header appears exactly when there is a prefix and some simple field under it. */
  lemma HeaderPresent(prefix: string, fields: Fields)
    ensures |Header(prefix, fields)| <= 1
    ensures Header(prefix, fields) != [] <==> prefix != "" && exists i :: 0 <= i < |fields| && IsSimple(fields[i].1)
  {
    SimpleLinesEmpty(fields);
  }


  lemma {:induction false} SimpleLinesAppend(a: Fields, b: Fields)
    ensures SimpleLines(a + b) == SimpleLines(a) + SimpleLines(b)
  {
    if |a| == 0 {
      assert a + b == b;
    } else {
      var ab := a + b;
      assert ab[1..] == a[1..] + b;
      assert ab[0] == a[0];
      assert SimpleLines(ab) == FieldLine(a[0]) + SimpleLines(ab[1..]);
      assert SimpleLines(a) == FieldLine(a[0]) + SimpleLines(a[1..]);
      SimpleLinesAppend(a[1..], b);
    }
  }

  lemma {:induction false} SectionLinesAppend(a: Fields, b: Fields, prefix: string)
    ensures SectionLines(a + b, prefix) == SectionLines(a, prefix) + SectionLines(b, prefix)
  {
    if |a| == 0 {
      assert a + b == b;
    } else {
      var ab := a + b;
      assert ab[1..] == a[1..] + b;
      assert ab[0] == a[0];
      FieldsSizeCons(ab);
      FieldsSizeCons(a);
      var head := if IsSection(a[0].1) then [""] + ObjectToToml(a[0].1.fields, SectionPath(prefix, a[0].0)) else [];
      assert SectionLines(ab, prefix) == head + SectionLines(ab[1..], prefix);
      assert SectionLines(a, prefix) == head + SectionLines(a[1..], prefix);
      SectionLinesAppend(a[1..], b, prefix);
    }
  }

  /**
   * Splitting an object's fields anywhere: all simple lines of both halves come
   * first, in field order, then all sections of both halves, in field order.
   */
  lemma EncodeAppend(a: Fields, b: Fields, prefix: string)
    ensures ObjectToToml(a + b, prefix)
      == Header(prefix, a + b) + SimpleLines(a) + SimpleLines(b)
         + SectionLines(a, prefix) + SectionLines(b, prefix)
  {
    SimpleLinesAppend(a, b);
    SectionLinesAppend(a, b, prefix);
  }

  /** An omitted field can be removed from anywhere in an object without changing a line. */
  lemma OmittedFieldLeavesNoTrace(a: Fields, key: string, v: Value, b: Fields, prefix: string)
    requires Omitted(v)
    ensures ObjectToToml(a + [(key, v)] + b, prefix) == ObjectToToml(a + b, prefix)
  {
    OmittedSingle((key, v), prefix);
    MiddleSimple(a, [(key, v)], b);
    MiddleSections(a, [(key, v)], b, prefix);
    assert SimpleLines(a) + [] == SimpleLines(a);
    assert SectionLines(a, prefix) + [] == SectionLines(a, prefix);
    SameLines(a + [(key, v)] + b, a + b, prefix);
  }

  /** Two field lists with the same simple lines and the same sections encode alike. */
  lemma SameLines(x: Fields, y: Fields, prefix: string)
    requires SimpleLines(x) == SimpleLines(y) && SectionLines(x, prefix) == SectionLines(y, prefix)
    ensures ObjectToToml(x, prefix) == ObjectToToml(y, prefix)
  {
  }

  lemma MiddleSimple(a: Fields, m: Fields, b: Fields)
    ensures SimpleLines(a + m + b) == SimpleLines(a) + SimpleLines(m) + SimpleLines(b)
    ensures SimpleLines(a + b) == SimpleLines(a) + SimpleLines(b)
  {
    SimpleLinesAppend(a, m);
    SimpleLinesAppend(a + m, b);
    SimpleLinesAppend(a, b);
  }

  lemma MiddleSections(a: Fields, m: Fields, b: Fields, prefix: string)
    ensures SectionLines(a + m + b, prefix) == SectionLines(a, prefix) + SectionLines(m, prefix) + SectionLines(b, prefix)
    ensures SectionLines(a + b, prefix) == SectionLines(a, prefix) + SectionLines(b, prefix)
  {
    SectionLinesAppend(a, m, prefix);
    SectionLinesAppend(a + m, b, prefix);
    SectionLinesAppend(a, b, prefix);
  }

  /** A simple field written after a nested object still lands before that object's section. */
  lemma ScalarsPrecedeSections(a: Fields, section: (string, Value), scalar: (string, Value), b: Fields, prefix: string)
    requires !IsSimple(section.1) && IsSimple(scalar.1)
    ensures ObjectToToml(a + [section, scalar] + b, prefix) == ObjectToToml(a + [scalar, section] + b, prefix)
  {
    SwapPair(section, scalar, prefix);
    SameLines(a + [section, scalar] + b, a + [scalar, section] + b, prefix) by {
      MiddleSimple(a, [section, scalar], b);
      MiddleSimple(a, [scalar, section], b);
      MiddleSections(a, [section, scalar], b, prefix);
      MiddleSections(a, [scalar, section], b, prefix);
    }
  }

  /** A non-simple field and a simple one give the same lines in either order. */
  lemma SwapPair(section: (string, Value), scalar: (string, Value), prefix: string)
    requires !IsSimple(section.1) && IsSimple(scalar.1)
    ensures SimpleLines([section, scalar]) == SimpleLines([scalar, section])
    ensures SectionLines([section, scalar], prefix) == SectionLines([scalar, section], prefix)
  {
    SimpleSingle(scalar, prefix);
    SimpleLinesAppend([section], [scalar]);
    SimpleLinesAppend([scalar], [section]);
    SectionLinesAppend([section], [scalar], prefix);
    SectionLinesAppend([scalar], [section], prefix);
    assert [section] + [scalar] == [section, scalar];
    assert [scalar] + [section] == [scalar, section];
    assert [section][1..] == [];
    assert SimpleLines([section]) == [];
  }

  /** The lines of a one-field object, by kind of field. */
  lemma SingleField(key: string, v: Value, prefix: string)
    ensures SimpleLines([(key, v)]) == if IsSimple(v) then [KeyLine(key, v)] else []
    ensures SectionLines([(key, v)], prefix)
      == if IsSection(v) then [""] + ObjectToToml(v.fields, SectionPath(prefix, key)) else []
  {
    var f := [(key, v)];
    assert f[1..] == [];
    assert f[0] == (key, v);
    assert SimpleLines(f[1..]) == [];
    assert SectionLines(f[1..], prefix) == [];
    FieldsSizeCons(f);
    assert SimpleLines(f) == (if IsSimple(v) then [KeyLine(key, v)] else []) + [];
    assert SectionLines(f, prefix)
      == (if IsSection(v) then [""] + ObjectToToml(v.fields, SectionPath(prefix, key)) else []) + [];
  }

  /** Every field as a `key = value` line, in order, whatever its kind. */
  function KeyLines(fields: Fields): seq<string>
  {
    if |fields| == 0 then [] else [KeyLine(fields[0].0, fields[0].1)] + KeyLines(fields[1..])
  }

  lemma {:induction false} KeyLinesAt(fields: Fields)
    ensures |KeyLines(fields)| == |fields|
    ensures forall i :: 0 <= i < |fields| ==> KeyLines(fields)[i] == KeyLine(fields[i].0, fields[i].1)
  {
    if |fields| > 0 {
      KeyLinesAt(fields[1..]);
    }
  }

  /** An object of simple fields only: one line per field, in order, and no sections. */
  lemma {:induction false} AllSimple(fields: Fields, prefix: string)
    requires forall i :: 0 <= i < |fields| ==> IsSimple(fields[i].1)
    ensures SimpleLines(fields) == KeyLines(fields)
    ensures SectionLines(fields, prefix) == []
  {
    if |fields| > 0 {
      var rest := fields[1..];
      AllSimple(rest, prefix);
      FieldsSizeCons(fields);
      assert SimpleLines(fields) == [KeyLine(fields[0].0, fields[0].1)] + SimpleLines(rest);
      assert SectionLines(fields, prefix) == [] + SectionLines(rest, prefix);
    }
  }

  /** A section of simple fields only: its header, then one line per field. */
  lemma FlatSection(fields: Fields, prefix: string)
    requires prefix != "" && |fields| > 0
    requires forall i :: 0 <= i < |fields| ==> IsSimple(fields[i].1)
    ensures ObjectToToml(fields, prefix) == ["[" + prefix + "]"] + KeyLines(fields)
  {
    AllSimple(fields, prefix);
    KeyLinesAt(fields);
    assert SimpleLines(fields) != [];
  }

  /** Three nested objects in a row: no `key = value` lines, and their sections in order. */
  lemma ThreeSections(a: (string, Value), b: (string, Value), c: (string, Value), prefix: string)
    requires IsSection(a.1) && IsSection(b.1) && IsSection(c.1)
    ensures SimpleLines([a, b, c]) == []
    ensures SectionLines([a, b, c], prefix) == SectionLines([a], prefix) + SectionLines([b], prefix) + SectionLines([c], prefix)
  {
    assert [a, b, c] == [a] + ([b] + [c]);
    OneSection(a, prefix);
    OneSection(b, prefix);
    OneSection(c, prefix);
    SimpleLinesAppend([b], [c]);
    SimpleLinesAppend([a], [b] + [c]);
    SectionLinesAppend([b], [c], prefix);
    SectionLinesAppend([a], [b] + [c], prefix);
  }

  /** An omitted field contributes no line at all. */
  lemma OmittedSingle(f: (string, Value), prefix: string)
    requires Omitted(f.1)
    ensures SimpleLines([f]) == [] && SectionLines([f], prefix) == []
  {
    assert [f][1..] == [];
  }

  /** A simple field contributes its one `key = value` line and no section. */
  lemma SimpleSingle(f: (string, Value), prefix: string)
    requires IsSimple(f.1)
    ensures SimpleLines([f]) == [KeyLine(f.0, f.1)] && SectionLines([f], prefix) == []
  {
    assert [f][1..] == [];
  }

  /** One nested object contributes no `key = value` line. */
  lemma OneSection(f: (string, Value), prefix: string)
    requires IsSection(f.1)
    ensures SimpleLines([f]) == []
  {
    assert [f][1..] == [];
  }

  lemma OneSimpleField(key: string, v: Value, prefix: string)
    requires IsSimple(v)
    ensures ObjectToToml([(key, v)], prefix) == Header(prefix, [(key, v)]) + [KeyLine(key, v)]
  {
    SimpleSingle((key, v), prefix);
  }

  /** One simple field: one `key = value` line, under the `[prefix]` header when there is a prefix. */
  lemma SimpleFieldIsOneLine(key: string, v: Value, prefix: string)
    requires IsSimple(v)
    ensures ObjectToToml([(key, v)], prefix)
      == (if prefix == "" then [] else ["[" + prefix + "]"]) + [key + " = " + ValueToToml(v)]
  {
    SingleField(key, v, prefix);
  }

  /** `false` and `0` are not empty: they are written. */
  lemma FalseAndZeroAreKept(key: string, prefix: string)
    ensures KeyLine(key, Bool(false)) == key + " = false"
    ensures KeyLine(key, Num(0)) == key + " = 0"
    ensures ObjectToToml([(key, Bool(false))], prefix) == Header(prefix, [(key, Bool(false))]) + [key + " = false"]
    ensures ObjectToToml([(key, Num(0))], prefix) == Header(prefix, [(key, Num(0))]) + [key + " = 0"]
  {
    OneSimpleField(key, Bool(false), prefix);
    OneSimpleField(key, Num(0), prefix);
    assert KeyLine(key, Bool(false)) == key + " = false";
    assert KeyLine(key, Num(0)) == key + " = 0";
  }

  /** One nested object: an empty line, then its own lines under the dotted path. */
  lemma NestedObjectIsOneSection(key: string, v: Value, prefix: string)
    requires IsSection(v)
    ensures ObjectToToml([(key, v)], prefix)
      == [""] + ObjectToToml(v.fields, if prefix == "" then key else prefix + "." + key)
  {
    SingleField(key, v, prefix);
  }

  /** An object holding only nested objects writes no header of its own, only their sections. */
  lemma NoHeaderWithoutScalars(fields: Fields, prefix: string)
    requires forall i :: 0 <= i < |fields| ==> !IsSimple(fields[i].1)
    ensures ObjectToToml(fields, prefix) == SectionLines(fields, prefix)
    ensures ObjectToToml(fields, prefix) == [] || ObjectToToml(fields, prefix)[0] == ""
  {
    SectionsStartBlank(fields, prefix);
  }

  lemma {:induction false} SectionsStartBlank(fields: Fields, prefix: string)
    ensures SectionLines(fields, prefix) == [] || SectionLines(fields, prefix)[0] == ""
  {
    if |fields| > 0 && !IsSection(fields[0].1) {
      SectionsStartBlank(fields[1..], prefix);
    }
  }

  /** An array, even one of objects, is a single line of inline values, never a section. */
  lemma ArrayIsOneLine(key: string, items: seq<Value>)
    requires items != []
    ensures ObjectToToml([(key, Arr(items))], "") == [key + " = " + ValueToToml(Arr(items))]
    ensures ValueToToml(Arr(items))[0] == '['
  {
    SingleField(key, Arr(items), "");
  }
}
