/**
 * JavaScript's `String.prototype.replace` with a string pattern and a string
 * replacement, as the ECMA-262 standard defines it: only the first
 * (leftmost) occurrence of the pattern is replaced, and the replacement is
 * read through the standard's `GetSubstitution` step, so `$$`, `$&`,
 * `` $` `` and `$'` in it stand for a dollar sign, the matched text, the text
 * before the match and the text after it. A string pattern has no capture
 * groups, so `$1` or `$<` stay as written.
 */
module StringReplace {
  import opened Wrappers

  /** `pat` occurs in `s` starting at offset `i`. */
  predicate OccursAt(s: string, pat: string, i: nat)
  {
    i + |pat| <= |s| && s[i..i + |pat|] == pat
  }

  /** `s.indexOf(pat, from)`: the leftmost occurrence at or after `from`. */
  function IndexOf(s: string, pat: string, from: nat): (r: Option<nat>)
    ensures r.Some? ==> from <= r.value && OccursAt(s, pat, r.value)
    ensures r.Some? ==> forall i :: from <= i < r.value ==> !OccursAt(s, pat, i)
    ensures r.None? ==> forall i :: from <= i ==> !OccursAt(s, pat, i)
    decreases |s| - from
  {
    if from + |pat| > |s| then None
    else if OccursAt(s, pat, from) then Some(from)
    else IndexOf(s, pat, from + 1)
  }

  /**
   * `GetSubstitution` for a match without captures: the replacement with its
   * `$` patterns expanded.
   */
  function Substitute(repl: string, matched: string, before: string, after: string): string
    decreases |repl|
  {
    if |repl| == 0 then ""
    else if repl[0] == '$' && |repl| >= 2 then
      var rest := Substitute(repl[2..], matched, before, after);
      match repl[1]
      case '$' => "$" + rest
      case '&' => matched + rest
      case '`' => before + rest
      case '\'' => after + rest
      case _ => "$" + Substitute(repl[1..], matched, before, after)
    else [repl[0]] + Substitute(repl[1..], matched, before, after)
  }

  /** `s.replace(pat, repl)`. */
  function ReplaceFirst(s: string, pat: string, repl: string): string
  {
    match IndexOf(s, pat, 0)
    case None => s
    case Some(i) => s[..i] + Substitute(repl, pat, s[..i], s[i + |pat|..]) + s[i + |pat|..]
  }

  /** Every `$` doubled: the replacement that `replace` inserts as written. */
  function Escape(t: string): (r: string)
    ensures |r| == |t| + CountDollars(t)
  {
    if |t| == 0 then ""
    else if t[0] == '$' then "$$" + Escape(t[1..])
    else [t[0]] + Escape(t[1..])
  }

  function CountDollars(t: string): nat
  {
    if |t| == 0 then 0 else (if t[0] == '$' then 1 else 0) + CountDollars(t[1..])
  }

  // ---------------------------------------------------------------------------
  // Lemmas

  /** A replacement without `$` is inserted as written. */
  lemma {:induction false} SubstituteNoDollar(repl: string, matched: string, before: string, after: string)
    requires '$' !in repl
    ensures Substitute(repl, matched, before, after) == repl
    decreases |repl|
  {
    if |repl| > 0 {
      assert repl[0] in repl;
      assert forall c :: c in repl[1..] ==> c in repl;
      SubstituteNoDollar(repl[1..], matched, before, after);
      assert repl == [repl[0]] + repl[1..];
    }
  }

  /**
   * Escaping is the inverse of substitution: whatever the match and its
   * context, the escaped text comes out of `replace` unchanged.
   */
  lemma {:induction false} SubstituteEscaped(t: string, matched: string, before: string, after: string)
    ensures Substitute(Escape(t), matched, before, after) == t
    decreases |t|
  {
    if |t| > 0 {
      var e := Escape(t);
      SubstituteEscaped(t[1..], matched, before, after);
      if t[0] == '$' {
        assert e[2..] == Escape(t[1..]);
      } else {
        assert e[1..] == Escape(t[1..]);
      }
      assert t == [t[0]] + t[1..];
    }
  }

  /**
   * `$&` brings back the matched text, and a lone `$` before any other
   * character stays a dollar sign.
   */
  lemma SubstitutePatterns(matched: string, before: string, after: string, c: char)
    requires c !in "$&`'"
    ensures Substitute("$&", matched, before, after) == matched
    ensures Substitute("$$", matched, before, after) == "$"
    ensures Substitute("$`", matched, before, after) == before
    ensures Substitute("$'", matched, before, after) == after
    ensures Substitute(['$', c], matched, before, after) == ['$', c]
  {
    assert "$&"[2..] == "" && "$$"[2..] == "" && "$`"[2..] == "" && "$'"[2..] == "";
    var d := ['$', c];
    assert d[1..] == [c] && [c][1..] == "";
    assert c != '$' && c != '&' && c != '`' && c != '\'';
  }

  /** Text without `$` in front of the rest of a replacement is copied as written. */
  lemma {:induction false} SubstitutePlainPrefix(x: string, rest: string, matched: string, before: string, after: string)
    requires '$' !in x
    ensures Substitute(x + rest, matched, before, after) == x + Substitute(rest, matched, before, after)
    decreases |x|
  {
    if |x| == 0 {
      assert x + rest == rest;
    } else {
      assert x[0] in x;
      assert forall c :: c in x[1..] ==> c in x;
      SubstitutePlainPrefix(x[1..], rest, matched, before, after);
      var whole := x + rest;
      assert whole[0] == x[0] && x[0] != '$';
      assert whole[1..] == x[1..] + rest;
      assert x == [x[0]] + x[1..];
    }
  }

  /**
   * A `$'` after text without `$` brings in the text after the match there.
   */
  lemma SubstituteRest(x: string, y: string, matched: string, before: string, after: string)
    requires '$' !in x
    ensures Substitute(x + ("$'" + y), matched, before, after)
      == x + after + Substitute(y, matched, before, after)
  {
    SubstitutePlainPrefix(x, "$'" + y, matched, before, after);
    var r := "$'" + y;
    assert r[0] == '$' && r[1] == '\'' && r[2..] == y;
  }

  /**
   * When the leftmost occurrence of `pat` is at `i`, `replace` keeps the text
   * around offset `i` and puts the substituted replacement in place of the
   * occurrence.
   */
  lemma ReplaceFirstAt(s: string, pat: string, repl: string, i: nat)
    requires OccursAt(s, pat, i)
    requires forall j :: 0 <= j < i ==> !OccursAt(s, pat, j)
    ensures ReplaceFirst(s, pat, repl)
      == s[..i] + Substitute(repl, pat, s[..i], s[i + |pat|..]) + s[i + |pat|..]
  {
  }

  /**
   * A text split around an occurrence of `pat` with no earlier one: `replace`
   * keeps both sides and puts the substituted replacement between them.
   */
  lemma ReplaceFirstAround(s: string, before: string, pat: string, after: string, repl: string)
    requires s == before + pat + after
    requires forall j :: 0 <= j < |before| ==> !OccursAt(s, pat, j)
    ensures ReplaceFirst(s, pat, repl) == before + Substitute(repl, pat, before, after) + after
  {
    var i := |before|;
    assert s[..i] == before;
    assert s[i..i + |pat|] == pat;
    assert s[i + |pat|..] == after;
    ReplaceFirstAt(s, pat, repl, i);
  }

  /**
   * At the leftmost occurrence, a replacement without `$` goes in as written,
   * and so does any text once escaped.
   */
  lemma ReplaceFirstLiteral(s: string, pat: string, repl: string, i: nat)
    requires OccursAt(s, pat, i)
    requires forall j :: 0 <= j < i ==> !OccursAt(s, pat, j)
    ensures '$' !in repl ==> ReplaceFirst(s, pat, repl) == s[..i] + repl + s[i + |pat|..]
    ensures ReplaceFirst(s, pat, Escape(repl)) == s[..i] + repl + s[i + |pat|..]
  {
    var before, after := s[..i], s[i + |pat|..];
    ReplaceFirstAt(s, pat, repl, i);
    ReplaceFirstAt(s, pat, Escape(repl), i);
    if '$' !in repl {
      SubstituteNoDollar(repl, pat, before, after);
    }
    SubstituteEscaped(repl, pat, before, after);
  }

  /** Without an occurrence of the pattern, `replace` leaves the text as it is. */
  lemma ReplaceFirstAbsent(s: string, pat: string, repl: string)
    requires forall i :: !OccursAt(s, pat, i)
    ensures ReplaceFirst(s, pat, repl) == s
  {
  }

  /** `replace` never acts after an occurrence it is shown: the match is at or before it. */
  lemma FirstNoLater(s: string, pat: string, i: nat)
    requires OccursAt(s, pat, i)
    ensures IndexOf(s, pat, 0).Some? && IndexOf(s, pat, 0).value <= i
  {
  }
}
