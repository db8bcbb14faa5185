/**
 * The configuration encoder `valueToToml` / `objectToToml`, which the client
 * and the server configuration files each carry an identical copy of.
 *
 * `objectToToml(obj, prefix)` turns one object into lines: the object's
 * simple fields first, one `key = value` line each and in field order, under a
 * `[prefix]` header when there is a prefix; then, for every nested object, one
 * empty line followed by that object's own lines under the dotted path.
 * Fields holding null, undefined, `""`, `[]` or `{}` produce nothing.
 */
module TomlEncode {
  import opened TomlValue
  import Text
  import Numerals

  function Quote(s: string): string
  {
    "\"" + s + "\""
  }

  /** `valueToToml`: an inline TOML rendering. Strings are quoted but not escaped. */
  function ValueToToml(v: Value): string
    decreases v
  {
    match v
    case Null => "\"\""
    case Str(s) => Quote(s)
    case Num(n) => Numerals.IntToString(n)
    case Bool(b) => if b then "true" else "false"
    case Arr(items) =>
      "[" + Text.Join(seq(|items|, i requires 0 <= i < |items| => ValueToToml(items[i])), ", ") + "]"
    case Obj(fields) =>
      "{" + Text.Join(seq(|fields|, i requires 0 <= i < |fields| => fields[i].0 + " = " + ValueToToml(fields[i].1)), ", ") + "}"
  }

  /** A field `objectToToml` drops: null, undefined, `''`, an empty array or a key-less object. */
  predicate Omitted(v: Value)
  {
    v.Null? || v == Str("") || v == Arr([]) || v == Obj([])
  }

  /** A field written as one `key = value` line: a kept string, number, boolean or array. */
  predicate IsSimple(v: Value)
  {
    !Omitted(v) && !v.Obj?
  }

  /** A field written as a section of its own: an object with at least one key. */
  predicate IsSection(v: Value)
  {
    v.Obj? && v.fields != []
  }

  function KeyLine(key: string, v: Value): string
  {
    key + " = " + ValueToToml(v)
  }

  function SectionPath(prefix: string, key: string): string
  {
    if prefix == "" then key else prefix + "." + key
  }

  /** The `key = value` lines of the simple fields, in field order. */
  function SimpleLines(fields: Fields): seq<string>
  {
    if |fields| == 0 then [] else FieldLine(fields[0]) + SimpleLines(fields[1..])
  }

  /** The `key = value` line of one field, if it is simple. */
  function FieldLine(f: (string, Value)): seq<string>
  {
    if IsSimple(f.1) then [KeyLine(f.0, f.1)] else []
  }

  /** The `[prefix]` line, present only under a prefix and only above simple fields. */
  function Header(prefix: string, fields: Fields): seq<string>
  {
    if prefix != "" && SimpleLines(fields) != [] then ["[" + prefix + "]"] else []
  }

  /** `objectToToml(obj, prefix)`; the empty prefix stands for the absent one. */
  function ObjectToToml(fields: Fields, prefix: string): (r: seq<string>)
    decreases FieldsSize(fields), 1
  {
    Header(prefix, fields) + SimpleLines(fields) + SectionLines(fields, prefix)
  }

  /** The nested sections of an object, each opened by an empty line. */
  function SectionLines(fields: Fields, prefix: string): (r: seq<string>)
    decreases FieldsSize(fields), 0
  {
    if |fields| == 0 then []
    else
      FieldsSizeCons(fields);
      var (key, v) := fields[0];
      (if IsSection(v) then [""] + ObjectToToml(v.fields, SectionPath(prefix, key)) else [])
      + SectionLines(fields[1..], prefix)
  }

  /** The whole text `objectToToml(obj).join('\n')` that gets written to disk. */
  function Encode(fields: Fields): string
  {
    Text.Join(ObjectToToml(fields, ""), "\n")
  }
}
