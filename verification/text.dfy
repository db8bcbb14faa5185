/**
 * The string primitives the configuration code leans on, with the meaning
 * JavaScript gives them: `trim`, `split` on one character, `join`.
 */
module Text {

  /** The characters `String.prototype.trim` removes: white space and line terminators. */
  predicate IsSpace(c: char)
  {
    c in SpaceChars
  }

  const SpaceChars: set<char> := {' ', '\t', '\n', '\r', '\U{000B}', '\U{000C}', '\U{00A0}', '\U{1680}',
    '\U{2000}', '\U{2001}', '\U{2002}', '\U{2003}', '\U{2004}', '\U{2005}', '\U{2006}', '\U{2007}',
    '\U{2008}', '\U{2009}', '\U{200A}', '\U{2028}', '\U{2029}', '\U{202F}', '\U{205F}', '\U{3000}', '\U{FEFF}'}

  /** A string that `trim` reduces to the empty string. */
  predicate IsBlank(s: string)
  {
    forall i :: 0 <= i < |s| ==> IsSpace(s[i])
  }

  /** One character that is not white space keeps a string from being blank. */
  lemma NotBlankAt(s: string, i: nat)
    requires i < |s| && !IsSpace(s[i])
    ensures !IsBlank(s)
  {
  }

  predicate StartsWith(s: string, prefix: string)
  {
    |prefix| <= |s| && s[..|prefix|] == prefix
  }

  /** Drops the leading white space: the longest blank prefix goes, the rest stays. */
  function TrimStart(s: string): (r: string)
    ensures |r| <= |s| && r == s[|s| - |r|..]
    ensures IsBlank(s[..|s| - |r|])
    ensures r == [] || !IsSpace(r[0])
  {
    if |s| > 0 && IsSpace(s[0]) then
      var r := TrimStart(s[1..]);
      assert s[..|s| - |r|] == [s[0]] + s[1..][..|s| - 1 - |r|];
      r
    else s
  }

  /** Drops the trailing white space: the longest blank suffix goes, the rest stays. */
  function TrimEnd(s: string): (r: string)
    ensures |r| <= |s| && r == s[..|r|]
    ensures IsBlank(s[|r|..])
    ensures r == [] || !IsSpace(r[|r| - 1])
  {
    if |s| > 0 && IsSpace(s[|s| - 1]) then
      var p := s[..|s| - 1];
      var r := TrimEnd(p);
      assert s[|r|..] == p[|r|..] + [s[|s| - 1]];
      r
    else s
  }

  /** JavaScript's `s.trim()`. */
  function Trim(s: string): (r: string)
    ensures r == [] || (!IsSpace(r[0]) && !IsSpace(r[|r| - 1]))
  {
    TrimEnd(TrimStart(s))
  }

  /** `trim` gives the empty string exactly for blank text. */
  lemma TrimEmpty(s: string)
    ensures Trim(s) == [] <==> IsBlank(s)
  {
    var t := TrimStart(s);
    assert s == s[..|s| - |t|] + t;
  }

  /** `parts.join(sep)`. */
  function Join(parts: seq<string>, sep: string): string
  {
    if |parts| == 0 then ""
    else if |parts| == 1 then parts[0]
    else parts[0] + sep + Join(parts[1..], sep)
  }

  /** A join begins with its first part. */
  lemma JoinHead(parts: seq<string>, sep: string)
    requires |parts| >= 1
    ensures |parts[0]| <= |Join(parts, sep)| && Join(parts, sep)[..|parts[0]|] == parts[0]
  {
    if |parts| > 1 {
      assert Join(parts, sep) == parts[0] + (sep + Join(parts[1..], sep));
    }
  }

  /** Joining one more part adds the separator and that part at the end. */
  lemma {:induction false} JoinSnoc(parts: seq<string>, last: string, sep: string)
    requires |parts| >= 1
    ensures Join(parts + [last], sep) == Join(parts, sep) + sep + last
  {
    if |parts| == 1 {
      assert (parts + [last])[1..] == [last];
    } else {
      assert (parts + [last])[1..] == parts[1..] + [last];
      JoinSnoc(parts[1..], last, sep);
      assert parts[0] + sep + (Join(parts[1..], sep) + sep + last) == (parts[0] + sep + Join(parts[1..], sep)) + sep + last;
    }
  }

  /** `s.split(c)` for a one-character separator: the pieces between separators, never none. */
  function Split(s: string, c: char): (r: seq<string>)
    ensures |r| >= 1
    ensures forall i :: 0 <= i < |r| ==> c !in r[i]
    ensures Join(r, [c]) == s
  {
    if |s| == 0 then [""]
    else if s[0] == c then [""] + Split(s[1..], c)
    else
      var t := Split(s[1..], c);
      [[s[0]] + t[0]] + t[1..]
  }

  /** The pieces that are not the empty string, in order: `filter(Boolean)` on strings. */
  function NonEmpty(parts: seq<string>): (r: seq<string>)
    ensures forall i :: 0 <= i < |r| ==> r[i] != ""
    ensures forall x :: x in r <==> x in parts && x != ""
    ensures |r| <= |parts|
  {
    if |parts| == 0 then []
    else (if parts[0] == "" then [] else [parts[0]]) + NonEmpty(parts[1..])
  }

  /** Splitting a join undoes it when no piece holds the separator. */
  lemma {:induction false} SplitJoin(parts: seq<string>, c: char)
    requires |parts| >= 1
    requires forall i :: 0 <= i < |parts| ==> c !in parts[i]
    ensures Split(Join(parts, [c]), c) == parts
    decreases |parts|, |parts[0]|
  {
    if |parts| == 1 {
      SplitNoSeparator(parts[0], c);
    } else if parts[0] == "" {
      var rest := parts[1..];
      assert Join(parts, [c]) == [c] + Join(rest, [c]);
      SplitJoin(rest, c);
      assert [""] + rest == parts;
    } else {
      var s := Join(parts, [c]);
      var shorter := [parts[0][1..]] + parts[1..];
      assert s == [parts[0][0]] + Join(shorter, [c]);
      SplitJoin(shorter, c);
      assert s[1..] == Join(shorter, [c]);
      assert [parts[0][0]] + shorter[0] == parts[0];
      assert [[parts[0][0]] + shorter[0]] + shorter[1..] == parts;
    }
  }

  lemma {:induction false} SplitNoSeparator(s: string, c: char)
    requires c !in s
    ensures Split(s, c) == [s]
  {
    if |s| > 0 {
      SplitNoSeparator(s[1..], c);
      assert [s[0]] + s[1..] == s;
    }
  }

  /** Removing white space at either end does not change what `trim` yields. */
  lemma TrimPadded(pre: string, s: string, post: string)
    requires IsBlank(pre) && IsBlank(post)
    ensures Trim(pre + s + post) == Trim(s)
  {
    assert pre + s + post == pre + (s + post);
    TrimStartBlankPrefix(pre, s + post);
    assert Trim(pre + s + post) == Trim(s + post);
    TrimThenBlank(s, post);
  }

  /** Cutting off a blank tail does not change the trim of what precedes it. */
  lemma TrimDropsBlankTail(s: string, m: nat, n: nat)
    requires m <= n <= |s| && IsBlank(s[n..])
    ensures Trim(s[m..]) == Trim(s[m..n])
  {
    var x := s[m..];
    assert x == s[m..n] + s[n..];
    TrimThenBlank(s[m..n], s[n..]);
  }

  /** A blank line's worth of newlines at the end does not survive `trim`. */
  lemma TrimThenNewlines(s: string)
    ensures Trim(s + "\n\n") == Trim(s)
  {
    NewlinesBlank();
    TrimThenBlank(s, "\n\n");
  }

  lemma NewlinesBlank()
    ensures IsBlank("\n\n")
  {
  }

  /** White space after the text does not survive the trim. */
  lemma TrimThenBlank(s: string, post: string)
    requires IsBlank(post)
    ensures Trim(s + post) == Trim(s)
  {
    if IsBlank(s) {
      BlankAppendTrimStart(s, post);
      BlankTrimEnd(TrimStart(s));
    } else {
      TrimStartAppend(s, post);
      TrimEndBlankSuffix(TrimStart(s), post);
    }
  }


  /** TrimEnd leaves nothing of a blank string. */
  lemma BlankTrimEnd(s: string)
    requires IsBlank(s)
    ensures TrimEnd(s) == []
  {
    var r := TrimEnd(s);
    assert forall i :: 0 <= i < |r| ==> r[i] == s[i] && IsSpace(r[i]);
  }

  lemma {:induction false} TrimStartBlankPrefix(pre: string, s: string)
    requires IsBlank(pre)
    ensures TrimStart(pre + s) == TrimStart(s)
  {
    if |pre| > 0 {
      assert (pre + s)[1..] == pre[1..] + s;
      TrimStartBlankPrefix(pre[1..], s);
    } else {
      assert pre + s == s;
    }
  }

  /** Trailing white space is left alone by TrimStart unless everything is blank. */
  lemma {:induction false} TrimStartAppend(s: string, post: string)
    requires !IsBlank(s)
    ensures TrimStart(s + post) == TrimStart(s) + post
  {
    if IsSpace(s[0]) {
      assert (s + post)[1..] == s[1..] + post;
      TrimStartAppend(s[1..], post);
    }
  }

  /** Blank text followed by blank text trims to nothing at the start. */
  lemma BlankAppendTrimStart(s: string, post: string)
    requires IsBlank(s) && IsBlank(post)
    ensures TrimStart(s + post) == ""
  {
    var u := s + post;
    assert IsBlank(u) by {
      forall i | 0 <= i < |u| ensures IsSpace(u[i]) {
        if i < |s| { assert u[i] == s[i]; } else { assert u[i] == post[i - |s|]; }
      }
    }
  }


  lemma {:induction false} TrimEndBlankSuffix(s: string, post: string)
    requires IsBlank(post)
    ensures TrimEnd(s + post) == TrimEnd(s)
    decreases |post|
  {
    if |post| > 0 {
      var shorter := post[..|post| - 1];
      assert (s + post)[..|s + post| - 1] == s + shorter;
      TrimEndBlankSuffix(s, shorter);
    } else {
      assert s + post == s;
    }
  }

  /** Leading white space goes no further than the first other character. */
  lemma {:induction false} TrimStartBeforeText(p: string, rest: string)
    requires |rest| > 0 && !IsSpace(rest[0])
    ensures TrimStart(p + rest) == TrimStart(p) + rest
  {
    if |p| == 0 {
      assert p + rest == rest;
    } else if IsSpace(p[0]) {
      assert (p + rest)[1..] == p[1..] + rest;
      TrimStartBeforeText(p[1..], rest);
    }
  }

  /** Trailing white space goes no further back than the last other character. */
  lemma {:induction false} TrimEndAfterText(x: string, y: string)
    requires !IsBlank(y)
    ensures TrimEnd(x + y) == x + TrimEnd(y)
    decreases |y|
  {
    var s := x + y;
    if IsSpace(y[|y| - 1]) {
      var y' := y[..|y| - 1];
      var i :| 0 <= i < |y| && !IsSpace(y[i]);
      assert y'[i] == y[i];
      NotBlankAt(y', i);
      assert s[..|s| - 1] == x + y';
      TrimEndAfterText(x, y');
    }
  }

  /** Trimming the end first changes nothing about the trim. */
  lemma TrimOfTrimEnd(x: string)
    ensures Trim(TrimEnd(x)) == Trim(x)
  {
    var r := TrimEnd(x);
    assert x == r + x[|r|..];
    TrimThenBlank(r, x[|r|..]);
  }

  /**
   * White space before text that starts with something else is all `trim`
   * removes at the front; at the back it removes only what trails the last part.
   */
  lemma TrimAround(p: string, mid: string, last: string)
    requires |mid + last| > 0 && !IsSpace((mid + last)[0]) && !IsBlank(last)
    ensures Trim(p + (mid + last)) == TrimStart(p) + mid + TrimEnd(last)
  {
    var front := TrimStart(p);
    TrimFront(p, mid + last);
    Regroup(front, mid, last);
    TrimEndAfterText(front + mid, last);
  }

  lemma Regroup(a: string, b: string, c: string)
    ensures a + (b + c) == (a + b) + c
  {
  }

  lemma TrimFront(p: string, rest: string)
    requires |rest| > 0 && !IsSpace(rest[0])
    ensures Trim(p + rest) == TrimEnd(TrimStart(p) + rest)
  {
    TrimStartBeforeText(p, rest);
  }

  /** A newline on either side of the text does not survive `trim`. */
  lemma TrimNewlinePadded(s: string)
    ensures Trim("\n" + s + "\n") == Trim(s)
    ensures Trim("\n" + s) == Trim(s)
  {
    NewlineBlank();
    TrimPadded("\n", s, "\n");
    TrimPadded("\n", s, "");
    assert "\n" + s + "" == "\n" + s;
  }

  lemma NewlineBlank()
    ensures IsBlank("\n") && IsBlank("")
  {
  }

  lemma BracketIsNotSpace()
    ensures !IsSpace('[')
  {
  }

  /** Neither end is white space: what `trim` leaves. */
  predicate Trimmed(s: string)
  {
    |s| == 0 || (!IsSpace(s[0]) && !IsSpace(s[|s| - 1]))
  }

  lemma TrimIsTrimmed(s: string)
    ensures Trimmed(Trim(s))
  {
  }

  /** Trimming text with no white space at either end changes nothing. */
  lemma TrimOfTrimmed(s: string)
    requires Trimmed(s)
    ensures Trim(s) == s
  {
    assert TrimStart(s) == s;
  }

  /** A character missing from s is missing from its trim. */
  lemma TrimWithin(s: string, c: char)
    ensures c !in s ==> c !in Trim(s)
  {
    var t := TrimStart(s);
    var r := TrimEnd(t);
    forall i | 0 <= i < |r| ensures r[i] == s[|s| - |t| + i] {
      assert r[i] == t[i];
    }
  }

  /** `trim` is idempotent. */
  lemma TrimTrim(s: string)
    ensures Trim(Trim(s)) == Trim(s)
  {
    var t := Trim(s);
    if t != [] {
      assert TrimStart(t) == t;
      assert TrimEnd(t) == t;
    }
  }
}
