/**
 * Reading inline values back: the partner of `valueToToml` for scalars and
 * for flat arrays of scalars.
 */
module TomlDecode {
  import opened Wrappers
  import opened TomlValue
  import opened TomlEncode
  import Text
  import Numerals
  import TomlLayout

  /**
   * A control character a TOML basic string may not hold as it is: U+0000 to
   * U+001F except the tab, and U+007F (section "String" of TOML 1.0.0).
   */
  predicate IsControl(c: char)
  {
    (c < ' ' && c != '\t') || c == '\U{7F}'
  }

  /**
   * Text that stands for itself between double quotes: no quote, no
   * backslash (which would start an escape) and no control character.
   */
  predicate Plain(s: string)
  {
    forall i :: 0 <= i < |s| ==> s[i] != '"' && s[i] != '\\' && !IsControl(s[i])
  }

  /**
   * Reads a quoted string, `true`/`false` or a decimal integer. A quoted text
   * that is not plain is refused: in TOML it is malformed or an escape
   * sequence that stands for other characters.
   */
  function DecodeScalar(t: string): Option<Value>
  {
    if |t| >= 2 && t[0] == '"' && t[|t| - 1] == '"' then
      (if Plain(t[1..|t| - 1]) then Some(Str(t[1..|t| - 1])) else None)
    else if t == "true" then Some(Bool(true))
    else if t == "false" then Some(Bool(false))
    else if |t| >= 2 && t[0] == '-' && Numerals.IsDigits(t[1..]) then Some(Num(0 - Numerals.DigitsValue(t[1..]) as int))
    else if Numerals.IsDigits(t) then Some(Num(Numerals.DigitsValue(t)))
    else None
  }

  /** Reads each piece as a scalar; fails if any piece does not read. */
  function DecodeScalars(pieces: seq<string>): Option<seq<Value>>
  {
    if |pieces| == 0 then Some([])
    else match (DecodeScalar(pieces[0]), DecodeScalars(pieces[1..]))
      case (Some(v), Some(vs)) => Some([v] + vs)
      case _ => None
  }

  function DropOneSpace(p: string): string
  {
    if |p| > 0 && p[0] == ' ' then p[1..] else p
  }

  /** Drops one leading blank from every piece. */
  function DropSpaces(ps: seq<string>): seq<string>
  {
    if |ps| == 0 then [] else [DropOneSpace(ps[0])] + DropSpaces(ps[1..])
  }

  /** Reads `[a, b, ...]` whose elements are scalars without commas. */
  function DecodeArray(t: string): Option<Value>
  {
    if |t| >= 2 && t[0] == '[' && t[|t| - 1] == ']' then
      var inner := t[1..|t| - 1];
      if inner == "" then Some(Arr([]))
      else
        var pieces := Text.Split(inner, ',');
        match DecodeScalars([pieces[0]] + DropSpaces(pieces[1..]))
        case Some(vs) => Some(Arr(vs))
        case None => None
    else None
  }

  predicate IsScalar(v: Value)
  {
    v.Str? || v.Num? || v.Bool?
  }

  /** A scalar whose rendering can be read back: any but a string that is not plain. */
  predicate Readable(v: Value)
  {
    IsScalar(v) && (v.Str? ==> Plain(v.s))
  }

  /**
   * Numbers, booleans and plain strings read back as themselves; a string
   * with a quote, a backslash or a control character is written unescaped
   * and does not read back.
   */
  lemma ScalarRoundTrip(v: Value)
    requires IsScalar(v)
    ensures DecodeScalar(ValueToToml(v)) == (if Readable(v) then Some(v) else None)
  {
    match v
    case Str(s) =>
      var t := Quote(s);
      assert t[1..|t| - 1] == s;
    case Bool(b) =>
    case Num(n) =>
      NumeralRoundTrip(n);
  }

  lemma NumeralRoundTrip(n: int)
    ensures DecodeScalar(Numerals.IntToString(n)) == Some(Num(n))
  {
    if n < 0 {
      NegativeRoundTrip(Numerals.NatToString(-n), -n);
    } else {
      DigitsRoundTrip(Numerals.NatToString(n), n);
    }
  }

  lemma DigitsRoundTrip(t: string, n: nat)
    requires t == Numerals.NatToString(n)
    ensures DecodeScalar(t) == Some(Num(n))
  {
    Numerals.NatToStringRoundTrip(n);
    Numerals.NatToStringDigits(n);
    assert Numerals.IsDigits(t);
    assert Numerals.IsDigit(t[0]);
    assert t[0] != '"' && t[0] != '-' && t[0] != 't' && t[0] != 'f';
    assert "true"[0] == 't' && "false"[0] == 'f';
  }

  lemma NegativeRoundTrip(d: string, m: nat)
    requires m > 0 && d == Numerals.NatToString(m)
    ensures DecodeScalar("-" + d) == Some(Num(0 - m))
  {
    var t := "-" + d;
    Numerals.NatToStringRoundTrip(m);
    Numerals.NatToStringDigits(m);
    assert t[1..] == d;
    assert Numerals.IsDigits(t[1..]);
    assert t[0] == '-' && |t| >= 2;
    assert "true"[0] == 't' && "false"[0] == 'f';
  }

  /** A scalar whose rendering holds no comma. */
  predicate IsCommaFreeScalar(v: Value)
  {
    (v.Str? && ',' !in v.s) || v.Num? || v.Bool?
  }

  lemma CommaFreeRendering(v: Value)
    requires IsCommaFreeScalar(v)
    ensures ',' !in ValueToToml(v)
  {
    if v.Num? {
      var d := Numerals.NatToString(if v.n < 0 then -v.n else v.n);
      Numerals.NatToStringDigits(if v.n < 0 then -v.n else v.n);
      assert forall i :: 0 <= i < |d| ==> Numerals.IsDigit(d[i]);
    }
  }

  /** Puts one blank in front of every piece. */
  function Spaced(ps: seq<string>): seq<string>
  {
    if |ps| == 0 then [] else [" " + ps[0]] + Spaced(ps[1..])
  }

  /** The renderings of a list of values, one per item. */
  function Renderings(items: seq<Value>): seq<string>
  {
    if |items| == 0 then [] else [ValueToToml(items[0])] + Renderings(items[1..])
  }

  lemma {:induction false} RenderingsAt(items: seq<Value>)
    ensures Renderings(items) == seq(|items|, i requires 0 <= i < |items| => ValueToToml(items[i]))
  {
    if |items| > 0 {
      RenderingsAt(items[1..]);
      var all := seq(|items|, i requires 0 <= i < |items| => ValueToToml(items[i]));
      assert all[1..] == seq(|items[1..]|, i requires 0 <= i < |items[1..]| => ValueToToml(items[1..][i]));
      assert all == [all[0]] + all[1..];
    }
  }

  lemma {:induction false} DropSpacesOfSpaced(ps: seq<string>)
    ensures DropSpaces(Spaced(ps)) == ps
  {
    if |ps| > 0 {
      DropSpacesOfSpaced(ps[1..]);
      assert (" " + ps[0])[1..] == ps[0];
    }
  }

  lemma {:induction false} SpacedCommaFree(ps: seq<string>)
    requires forall i :: 0 <= i < |ps| ==> ',' !in ps[i]
    ensures forall i :: 0 <= i < |Spaced(ps)| ==> ',' !in Spaced(ps)[i]
    ensures |Spaced(ps)| == |ps|
  {
    if |ps| > 0 {
      SpacedCommaFree(ps[1..]);
      assert ',' !in " " + ps[0];
    }
  }

  /** Joining with `", "` is joining the blank-led pieces with `","`. */
  lemma {:induction false} JoinCommaSpace(parts: seq<string>)
    requires |parts| >= 1
    ensures Text.Join(parts, ", ") == Text.Join([parts[0]] + Spaced(parts[1..]), ",")
  {
    if |parts| >= 2 {
      var rest := parts[1..];
      JoinCommaSpace(rest);
      assert rest[1..] == parts[2..];
      assert Spaced(rest) == [" " + rest[0]] + Spaced(rest[1..]);
      assert ([parts[0]] + Spaced(rest))[1..] == Spaced(rest);
      assert Text.Join([parts[0]] + Spaced(rest), ",") == parts[0] + "," + Text.Join(Spaced(rest), ",");
      JoinConsSpace(rest[0], Spaced(rest[1..]));
    }
  }

  lemma JoinConsSpace(head: string, tail: seq<string>)
    ensures Text.Join([" " + head] + tail, ",") == " " + Text.Join([head] + tail, ",")
  {
    if |tail| > 0 {
      assert ([" " + head] + tail)[1..] == tail;
      assert ([head] + tail)[1..] == tail;
    }
  }

  lemma {:induction false} DecodeScalarsOfRenderings(items: seq<Value>)
    requires forall i :: 0 <= i < |items| ==> IsScalar(items[i])
    ensures DecodeScalars(Renderings(items))
      == (if forall i :: 0 <= i < |items| ==> Readable(items[i]) then Some(items) else None)
  {
    if |items| > 0 {
      ScalarRoundTrip(items[0]);
      DecodeScalarsOfRenderings(items[1..]);
      assert Renderings(items)[1..] == Renderings(items[1..]);
      assert [items[0]] + items[1..] == items;
      if !Readable(items[0]) {
        assert DecodeScalars(Renderings(items)) == None;
      } else if forall i :: 0 <= i < |items[1..]| ==> Readable(items[1..][i]) {
        forall i | 0 <= i < |items| ensures Readable(items[i]) {
          if i > 0 { assert items[i] == items[1..][i - 1]; }
        }
      } else {
        var j :| 0 <= j < |items[1..]| && !Readable(items[1..][j]);
        assert !Readable(items[j + 1]);
      }
    }
  }

  /** The pieces DecodeArray cuts `a, b, ...` into are exactly the renderings joined. */
  lemma UnjoinRenderings(rs: seq<string>)
    requires |rs| >= 1
    requires forall i :: 0 <= i < |rs| ==> ',' !in rs[i]
    ensures var pieces := Text.Split(Text.Join(rs, ", "), ',');
      [pieces[0]] + DropSpaces(pieces[1..]) == rs
  {
    JoinCommaSpace(rs);
    var spaced := [rs[0]] + Spaced(rs[1..]);
    LeadCommaFree(rs);
    assert "," == [','];
    Text.SplitJoin(spaced, ',');
    var pieces := Text.Split(Text.Join(rs, ", "), ',');
    assert pieces == spaced;
    assert pieces[1..] == Spaced(rs[1..]);
    DropSpacesOfSpaced(rs[1..]);
    assert [rs[0]] + rs[1..] == rs;
  }

  lemma LeadCommaFree(rs: seq<string>)
    requires |rs| >= 1
    requires forall i :: 0 <= i < |rs| ==> ',' !in rs[i]
    ensures forall i :: 0 <= i < |[rs[0]] + Spaced(rs[1..])| ==> ',' !in ([rs[0]] + Spaced(rs[1..]))[i]
  {
    var tail := rs[1..];
    SpacedCommaFree(tail);
    var spaced := [rs[0]] + Spaced(tail);
    forall i | 0 <= i < |spaced| ensures ',' !in spaced[i] {
      if i > 0 { assert spaced[i] == Spaced(tail)[i - 1]; }
    }
  }

  /**
   * An array of comma-free scalars reads back as itself exactly when every
   * string in it is plain: `valueToToml` loses nothing there, and an
   * unescaped quote, backslash or control character spoils the whole array.
   */
  lemma ArrayRoundTrip(items: seq<Value>)
    requires forall i :: 0 <= i < |items| ==> IsCommaFreeScalar(items[i])
    ensures DecodeArray(ValueToToml(Arr(items)))
      == (if forall i :: 0 <= i < |items| ==> Readable(items[i]) then Some(Arr(items)) else None)
  {
    var rs := Renderings(items);
    RenderingsAt(items);
    var t := ValueToToml(Arr(items));
    assert t == "[" + Text.Join(rs, ", ") + "]";
    assert t[1..|t| - 1] == Text.Join(rs, ", ");
    if |items| > 0 {
      forall i | 0 <= i < |items| ensures ',' !in rs[i] {
        CommaFreeRendering(items[i]);
      }
      JoinFirstPrefix(rs, ", ");
      TomlLayout.RenderingKind(items[0]);
      UnjoinRenderings(rs);
      DecodeScalarsOfRenderings(items);
    }
  }

  lemma JoinFirstPrefix(parts: seq<string>, sep: string)
    requires |parts| >= 1
    ensures |Text.Join(parts, sep)| >= |parts[0]|
  {
  }
}
