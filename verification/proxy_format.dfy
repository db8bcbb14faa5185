/**
 * The proxy formatter `formatProxyToToml` and its value renderer
 * `valueToTomlString`. Unlike the configuration encoder it writes a nested
 * object as `parent.child = value` lines in place, keeps empty strings and
 * empty arrays, and drops only null and undefined.
 */
module ProxyFormat {
  import opened Wrappers
  import opened TomlValue
  import TomlEncode
  import TomlLayout
  import Numerals
  import Text

  /** The present values, in order. */
  function Somes(xs: seq<Option<string>>): (r: seq<string>)
    ensures |r| <= |xs|
    ensures r == [] <==> forall i :: 0 <= i < |xs| ==> xs[i].None?
  {
    if |xs| == 0 then []
    else
      var rest := Somes(xs[1..]);
      assert (forall i :: 0 <= i < |xs[1..]| ==> xs[1..][i].None?) <==> (forall i :: 1 <= i < |xs| ==> xs[i].None?);
      (if xs[0].Some? then [xs[0].value] else []) + rest
  }

  /**
   * `valueToTomlString`. Null gives the empty string; an object gives its
   * non-null entries as `k = v` lines, or the empty string when it has none.
   */
  function ValueToTomlString(v: Value): string
    decreases v
  {
    match v
    case Null => ""
    case Str(s) => TomlEncode.Quote(s)
    case Num(n) => Numerals.IntToString(n)
    case Bool(b) => if b then "true" else "false"
    case Arr(items) =>
      if |items| == 0 then "[]"
      else "[" + Text.Join(seq(|items|, i requires 0 <= i < |items| => ValueToTomlString(items[i])), ", ") + "]"
    case Obj(fields) =>
      var entries := Somes(seq(|fields|, i requires 0 <= i < |fields| =>
        if fields[i].1.Null? then None else Some(fields[i].0 + " = " + ValueToTomlString(fields[i].1))));
      if |entries| == 0 then "" else Text.Join(entries, "\n")
  }

  /** The entries `Object.entries(o).filter(([_, v]) => v !== undefined && v !== null)` keeps. */
  function Present(fields: Fields): (r: Fields)
    ensures |r| <= |fields|
    ensures forall i :: 0 <= i < |r| ==> !r[i].1.Null?
  {
    if |fields| == 0 then []
    else (if fields[0].1.Null? then [] else [fields[0]]) + Present(fields[1..])
  }

  /** The `parent.child = value` lines of a nested object. */
  function SubLines(key: string, sub: Fields): seq<string>
  {
    if |sub| == 0 then []
    else
      (if sub[0].1.Null? then [] else [key + "." + sub[0].0 + " = " + ValueToTomlString(sub[0].1)])
      + SubLines(key, sub[1..])
  }

  /** The lines one field of the proxy configuration contributes. */
  function FieldLines(key: string, v: Value): seq<string>
  {
    match v
    case Null => []
    case Obj(sub) => SubLines(key, sub)
    case _ =>
      var formatted := ValueToTomlString(v);
      if formatted != "" then [key + " = " + formatted] else []
  }

  /** The lines of `formatProxyToToml`, field by field in entry order. */
  function ProxyLines(config: Fields): seq<string>
  {
    if |config| == 0 then [] else FieldLines(config[0].0, config[0].1) + ProxyLines(config[1..])
  }

  /** `formatProxyToToml(config)`: the lines joined by newlines, with no trailing newline. */
  function FormatProxy(config: Fields): string
  {
    Text.Join(ProxyLines(config), "\n")
  }

  /**
   * How many entries the formatter's array holds, counted field by field.
   * Each entry is one `key = value` line unless a string value itself holds
   * a line break.
   */
  function EntryCount(config: Fields): nat
  {
    if |config| == 0 then 0
    else
      var v := config[0].1;
      (if v.Null? then 0 else if v.Obj? then |Present(v.fields)| else 1) + EntryCount(config[1..])
  }

  /**
   * The rendering is empty exactly for null and for an object with no
   * non-null entry: a string, number, boolean or array always renders to
   * something, so the `if (formattedValue)` guard never drops such a field.
   */
  lemma RenderedEmpty(v: Value)
    ensures ValueToTomlString(v) == "" <==> v.Null? || (v.Obj? && forall i :: 0 <= i < |v.fields| ==> v.fields[i].1.Null?)
  {
    match v
    case Num(n) =>
      Numerals.IntToStringSign(n);
    case Obj(fields) =>
      ObjectRenderedEmpty(fields);
    case _ =>
  }

  lemma ObjectRenderedEmpty(fields: Fields)
    ensures ValueToTomlString(Obj(fields)) == "" <==> forall i :: 0 <= i < |fields| ==> fields[i].1.Null?
  {
    var opts := seq(|fields|, i requires 0 <= i < |fields| =>
      if fields[i].1.Null? then None else Some(fields[i].0 + " = " + ValueToTomlString(fields[i].1)));
    var entries := Somes(opts);
    assert ValueToTomlString(Obj(fields)) == if |entries| == 0 then "" else Text.Join(entries, "\n");
    if |entries| > 0 {
      var j :| 0 <= j < |opts| && opts[j].Some?;
      assert !fields[j].1.Null?;
      SomesAtLeast(opts, 3);
      Text.JoinHead(entries, "\n");
      assert |Text.Join(entries, "\n")| >= 3;
    } else {
      forall i | 0 <= i < |fields| ensures fields[i].1.Null? {
        assert opts[i].None?;
      }
    }
  }

  /** Present values are as long as every present value is. */
  lemma {:induction false} SomesAtLeast(xs: seq<Option<string>>, n: nat)
    requires forall i :: 0 <= i < |xs| && xs[i].Some? ==> |xs[i].value| >= n
    ensures forall j :: 0 <= j < |Somes(xs)| ==> |Somes(xs)[j]| >= n
  {
    if |xs| > 0 {
      SomesAtLeast(xs[1..], n);
    }
  }

  /** Strings, numbers, booleans and arrays of them: no null and no object anywhere inside. */
  predicate NullFree(v: Value)
    decreases v
  {
    match v
    case Arr(items) => forall i :: 0 <= i < |items| ==> NullFree(items[i])
    case Null => false
    case Obj(_) => false
    case _ => true
  }

  /**
   * On strings, numbers, booleans and arrays of them the proxy renderer and
   * the configuration encoder's `valueToToml` write the same text.
   */
  lemma {:induction false} AgreesWithConfigEncoder(v: Value)
    requires NullFree(v)
    ensures ValueToTomlString(v) == TomlEncode.ValueToToml(v)
    decreases v
  {
    if v.Arr? {
      var items := v.items;
      forall i | 0 <= i < |items|
        ensures ValueToTomlString(items[i]) == TomlEncode.ValueToToml(items[i])
      {
        AgreesWithConfigEncoder(items[i]);
      }
      var mine := seq(|items|, i requires 0 <= i < |items| => ValueToTomlString(items[i]));
      var theirs := seq(|items|, i requires 0 <= i < |items| => TomlEncode.ValueToToml(items[i]));
      assert mine == theirs;
      if |items| == 0 {
        assert TomlEncode.ValueToToml(v) == "[" + Text.Join([], ", ") + "]";
      }
    }
  }

  /** A string, number, boolean or array field becomes exactly one `key = value` line. */
  lemma ScalarFieldIsOneLine(key: string, v: Value)
    requires !v.Null? && !v.Obj?
    ensures FieldLines(key, v) == [key + " = " + ValueToTomlString(v)]
  {
    RenderedEmpty(v);
  }

  /**
   * Empty strings and empty arrays are kept as `key = ""` and `key = []`,
   * where the configuration encoder drops them.
   */
  lemma KeepsWhatTheEncoderDrops(key: string, v: Value)
    requires v == Str("") || v == Arr([])
    ensures FieldLines(key, v) == [key + " = " + (if v.Str? then "\"\"" else "[]")]
    ensures TomlEncode.Omitted(v)
    ensures TomlEncode.ObjectToToml([(key, v)], "") == []
  {
    ScalarFieldIsOneLine(key, v);
    assert TomlEncode.Quote("") == "\"\"";
    TomlLayout.OmittedSingle((key, v), "");
  }

  /**
   * A nested object is flattened in place: one `key.child = value` line per
   * non-null entry, in entry order, and nothing for an object without one.
   */
  lemma {:induction false} NestedObjectFlattened(key: string, sub: Fields)
    ensures FieldLines(key, Obj(sub)) == SubLines(key, sub)
    ensures |SubLines(key, sub)| == |Present(sub)|
    ensures forall i :: 0 <= i < |Present(sub)| ==>
      SubLines(key, sub)[i] == key + "." + Present(sub)[i].0 + " = " + ValueToTomlString(Present(sub)[i].1)
  {
    if |sub| > 0 {
      NestedObjectFlattened(key, sub[1..]);
    }
  }

  /** Formatting a concatenation formats each part in turn: field order is kept. */
  lemma {:induction false} ProxyLinesAppend(a: Fields, b: Fields)
    ensures ProxyLines(a + b) == ProxyLines(a) + ProxyLines(b)
  {
    if |a| == 0 {
      assert a + b == b;
    } else {
      assert (a + b)[1..] == a[1..] + b;
      ProxyLinesAppend(a[1..], b);
    }
  }

  /** A null or undefined field can be removed from anywhere without changing a line. */
  lemma NullFieldSkipped(a: Fields, key: string, b: Fields)
    ensures ProxyLines(a + [(key, Null)] + b) == ProxyLines(a) + ProxyLines(b)
  {
    var skipped := [(key, Null)];
    ProxyLinesAppend(a + skipped, b);
    ProxyLinesAppend(a, skipped);
    OneField(key, Null);
    assert ProxyLines(a) + [] == ProxyLines(a);
  }

  lemma OneField(key: string, v: Value)
    ensures ProxyLines([(key, v)]) == FieldLines(key, v)
  {
    assert [(key, v)][1..] == [];
  }

  /** The number of formatted lines: none for null, one per non-null entry of an object, one otherwise. */
  lemma {:induction false} ProxyEntryCount(config: Fields)
    ensures |ProxyLines(config)| == EntryCount(config)
  {
    if |config| > 0 {
      var (key, v) := config[0];
      ProxyEntryCount(config[1..]);
      if v.Obj? {
        NestedObjectFlattened(key, v.fields);
      } else if !v.Null? {
        ScalarFieldIsOneLine(key, v);
      }
    }
  }
}
