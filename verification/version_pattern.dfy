/**
 * The two regular expressions the version handling uses: the anchored
 * `^v?\d+\.\d+\.\d+$` of `isValidVersion`, and the search
 * `v(\d+)\.(\d+)\.(\d+)` that finds a version inside a download URL or a
 * registry line. Both are matched by hand: a run of digits is always
 * followed by a dot or by the end, so greedy matching never needs to
 * backtrack.
 */
module VersionPattern {
  import opened Wrappers
  import Numerals
  import Text

  /** The length of the run of digits that starts at i. */
  function DigitsFrom(s: string, i: nat): (n: nat)
    requires i <= |s|
    ensures i + n <= |s|
    decreases |s| - i
  {
    if i < |s| && Numerals.IsDigit(s[i]) then 1 + DigitsFrom(s, i + 1) else 0
  }

  /** The run is all digits and stops at a non-digit or at the end. */
  lemma {:induction false} DigitsFromRun(s: string, i: nat)
    requires i <= |s|
    ensures forall j :: i <= j < i + DigitsFrom(s, i) ==> Numerals.IsDigit(s[j])
    ensures i + DigitsFrom(s, i) < |s| ==> !Numerals.IsDigit(s[i + DigitsFrom(s, i)])
    decreases |s| - i
  {
    if i < |s| && Numerals.IsDigit(s[i]) {
      DigitsFromRun(s, i + 1);
    }
  }

  /** The three digit runs `(\d+)\.(\d+)\.(\d+)` captures. */
  datatype Groups = Groups(major: string, minor: string, patch: string)
  {
    /** The matched text. */
    function Text(): string
    {
      major + "." + minor + "." + patch
    }

    predicate AllDigits()
    {
      Numerals.IsDigits(major) && Numerals.IsDigits(minor) && Numerals.IsDigits(patch)
    }
  }

  /** `\d+\.` tried at offset i: the offset just past the dot. */
  function DigitsThenDot(s: string, i: nat): (r: Option<nat>)
    requires i <= |s|
    ensures r.Some? ==> i + 2 <= r.value <= |s|
  {
    var a := DigitsFrom(s, i);
    if a == 0 || i + a >= |s| || s[i + a] != '.' then None else Some(i + a + 1)
  }

  /**
   * Where a match of `\d+\.\d+\.\d+` at i stands: just past its first dot,
   * just past its second dot, and at its end.
   */
  datatype Offsets = Offsets(j: nat, k: nat, e: nat)

  /** `\d+\.\d+\.\d+` tried at offset i, with greedy digit runs: where its pieces end. */
  function OffsetsAt(s: string, i: nat): (r: Option<Offsets>)
    requires i <= |s|
    ensures r.Some? ==> i + 2 <= r.value.j && r.value.j + 2 <= r.value.k < r.value.e <= |s|
  {
    match DigitsThenDot(s, i)
    case None => None
    case Some(j) =>
      match DigitsThenDot(s, j)
      case None => None
      case Some(k) =>
        var c := DigitsFrom(s, k);
        if c == 0 then None else Some(Offsets(j, k, k + c))
  }

  /** The groups `\d+\.\d+\.\d+` captures at offset i. */
  function TripleAt(s: string, i: nat): Option<Groups>
    requires i <= |s|
  {
    match OffsetsAt(s, i)
    case None => None
    case Some(o) => Some(Groups(s[i..o.j - 1], s[o.j..o.k - 1], s[o.k..o.e]))
  }

  /** The match at i captures the text between its offsets. */
  lemma GroupsAt(s: string, i: nat)
    requires i <= |s| && OffsetsAt(s, i).Some?
    ensures var o := OffsetsAt(s, i).value;
      TripleAt(s, i) == Some(Groups(s[i..o.j - 1], s[o.j..o.k - 1], s[o.k..o.e]))
  {
  }

  /** The captured groups are digit runs, and the text they spell out stands at i. */
  lemma TripleSpelled(s: string, i: nat)
    requires i <= |s| && OffsetsAt(s, i).Some?
    ensures TripleAt(s, i).Some? && TripleAt(s, i).value.AllDigits()
    ensures TripleEnd(s, i) == i + |TripleAt(s, i).value.Text()|
    ensures s[i..TripleEnd(s, i)] == TripleAt(s, i).value.Text()
  {
    var o := OffsetsAt(s, i).value;
    TripleParts(s, i);
    GroupsAt(s, i);
    DotStep(s, i);
    DotStep(s, o.j);
    DigitsFromRun(s, o.k);
    DigitsSlice(s, o.k, o.e);
    Spell(s, i, o.j, o.k, o.e);
  }

  /** The steps a successful `\d+\.\d+\.\d+` at i takes. */
  lemma TripleParts(s: string, i: nat)
    requires i <= |s| && OffsetsAt(s, i).Some?
    ensures var o := OffsetsAt(s, i).value;
      && DigitsThenDot(s, i) == Some(o.j) && DigitsThenDot(s, o.j) == Some(o.k)
      && DigitsFrom(s, o.k) == o.e - o.k
  {
  }

  /** `\d+\.` twice and then a digit run: where the pieces of `\d+\.\d+\.\d+` at i end. */
  lemma OffsetsFrom(s: string, i: nat, j: nat, k: nat, c: nat)
    requires i <= |s| && DigitsThenDot(s, i) == Some(j) && DigitsThenDot(s, j) == Some(k)
    requires DigitsFrom(s, k) == c && c > 0
    ensures OffsetsAt(s, i) == Some(Offsets(j, k, k + c))
  {
  }

  /** A successful `\d+\.` covers a digit run and then a dot. */
  lemma DotStep(s: string, i: nat)
    requires i <= |s| && DigitsThenDot(s, i).Some?
    ensures var j := DigitsThenDot(s, i).value;
      s[j - 1] == '.' && Numerals.IsDigits(s[i..j - 1])
  {
    var a := DigitsFrom(s, i);
    DigitsFromRun(s, i);
    DigitsSlice(s, i, i + a);
  }

  lemma DigitsSlice(s: string, i: nat, e: nat)
    requires i < e <= |s| && forall j :: i <= j < e ==> Numerals.IsDigit(s[j])
    ensures Numerals.IsDigits(s[i..e])
  {
    var t := s[i..e];
    forall x | 0 <= x < |t| ensures Numerals.IsDigit(t[x]) {
      assert t[x] == s[i + x];
    }
  }

  /** Text cut at two dots is the three pieces joined by dots. */
  lemma Spell(s: string, i: nat, j: nat, k: nat, e: nat)
    requires i < j < k <= e <= |s| && s[j - 1] == '.' && s[k - 1] == '.'
    ensures s[i..e] == Groups(s[i..j - 1], s[j..k - 1], s[k..e]).Text()
  {
    assert s[i..e] == s[i..j - 1] + s[j - 1..j] + s[j..k - 1] + s[k - 1..k] + s[k..e];
  }

  /** Where the match of `\d+\.\d+\.\d+` at i ends. */
  function TripleEnd(s: string, i: nat): nat
    requires i <= |s| && OffsetsAt(s, i).Some?
  {
    OffsetsAt(s, i).value.e
  }

  /**
   * `isValidVersion`: `/^v?\d+\.\d+\.\d+$/.test(version)`. The optional
   * `v` is taken when present; leaving it out could only make `\d` face a
   * `v`.
   */
  predicate IsValidVersion(s: string)
  {
    var i := if |s| > 0 && s[0] == 'v' then 1 else 0;
    OffsetsAt(s, i).Some? && TripleEnd(s, i) == |s|
  }

  /**
   * The same format described by pieces: after an optional `v`, the text
   * splits at dots into exactly three non-empty runs of digits.
   */
  predicate VersionShape(s: string)
  {
    var body := if |s| > 0 && s[0] == 'v' then s[1..] else s;
    var parts := Text.Split(body, '.');
    |parts| == 3 && forall p :: p in parts ==> Numerals.IsDigits(p)
  }

  /** `v\d+\.\d+\.\d+` matches at offset q. */
  predicate MatchesAt(s: string, q: nat)
  {
    q < |s| && s[q] == 'v' && OffsetsAt(s, q + 1).Some?
  }

  /** The leftmost offset from p on where a pattern, told by `at`, matches. */
  function Leftmost(at: (string, nat) -> bool, s: string, p: nat): (r: Option<nat>)
    requires p <= |s|
    ensures r.Some? ==> p <= r.value < |s| && at(s, r.value)
    ensures r.Some? ==> forall q :: p <= q < r.value ==> !at(s, q)
    ensures r.None? <==> forall q :: p <= q < |s| ==> !at(s, q)
    decreases |s| - p
  {
    if p == |s| then None
    else if at(s, p) then Some(p)
    else Leftmost(at, s, p + 1)
  }

  /** The leftmost offset from p on where `v\d+\.\d+\.\d+` matches: where a regular expression search finds it. */
  function FindFrom(s: string, p: nat): (r: Option<nat>)
    requires p <= |s|
    ensures r.Some? ==> p <= r.value < |s| && MatchesAt(s, r.value)
    ensures r.Some? ==> forall q :: p <= q < r.value ==> !MatchesAt(s, q)
    ensures r.None? <==> forall q :: p <= q < |s| ==> !MatchesAt(s, q)
  {
    Leftmost(MatchesAt, s, p)
  }

  /** `s.match(/v(\d+)\.(\d+)\.(\d+)/)`: the groups of the leftmost match. */
  function MatchGroups(s: string): Option<Groups>
  {
    match FindFrom(s, 0)
    case None => None
    case Some(q) => TripleAt(s, q + 1)
  }

  /**
   * `url.match(/v\d+\.\d+\.\d+/)[0]`: the leftmost match, `v` included, or
   * nothing when the URL holds no version.
   */
  function ExtractVersion(url: string): (r: Option<string>)
    ensures r.Some? ==> |r.value| > 0 && r.value[0] == 'v'
  {
    match FindFrom(url, 0)
    case None => None
    case Some(q) => Some(url[q..TripleEnd(url, q + 1)])
  }

  // ---------------------------------------------------------------------------
  // Lemmas

  /** A digit run ending at a non-digit or at the end is measured exactly. */
  lemma {:induction false} RunLength(s: string, i: nat, n: nat)
    requires i + n <= |s|
    requires forall j :: i <= j < i + n ==> Numerals.IsDigit(s[j])
    requires i + n < |s| ==> !Numerals.IsDigit(s[i + n])
    ensures DigitsFrom(s, i) == n
    decreases n
  {
    if n > 0 {
      RunLength(s, i + 1, n - 1);
    }
  }

  /** A digit run has no dot in it. */
  lemma DigitsHaveNoDot(p: string)
    requires Numerals.IsDigits(p)
    ensures '.' !in p
  {
    forall j | 0 <= j < |p| ensures p[j] != '.' {
      assert Numerals.IsDigit(p[j]);
    }
  }

  lemma JoinThree(a: string, b: string, c: string)
    ensures Text.Join([a, b, c], ".") == Groups(a, b, c).Text()
  {
    assert [a, b, c][1..] == [b, c];
    assert [b, c][1..] == [c];
    assert Text.Join([b, c], ".") == b + "." + c;
    assert Text.Join([a, b, c], ".") == a + "." + (b + "." + c);
  }

  /** Text the match spells out from i to the end splits into the three groups. */
  lemma MatchSplits(s: string, i: nat)
    requires i <= |s| && OffsetsAt(s, i).Some? && TripleEnd(s, i) == |s|
    ensures Text.Split(s[i..], '.') == [TripleAt(s, i).value.major, TripleAt(s, i).value.minor, TripleAt(s, i).value.patch]
  {
    var g := TripleAt(s, i).value;
    TripleSpelled(s, i);
    assert s[i..] == g.Text();
    DigitsHaveNoDot(g.major);
    DigitsHaveNoDot(g.minor);
    DigitsHaveNoDot(g.patch);
    JoinThree(g.major, g.minor, g.patch);
    Text.SplitJoin([g.major, g.minor, g.patch], '.');
  }

  /** Three digit runs joined by dots, read from i to the end, match with those groups. */
  lemma SplitMatches(s: string, i: nat, a: string, b: string, c: string)
    requires i <= |s| && s[i..] == Groups(a, b, c).Text()
    requires Groups(a, b, c).AllDigits()
    ensures OffsetsAt(s, i).Some? && TripleEnd(s, i) == |s|
    ensures TripleAt(s, i) == Some(Groups(a, b, c))
  {
    var j := i + |a| + 1;
    var k := j + |b| + 1;
    Pieces(s, i, a, b, c);
    DigitsThenDotAt(s, i, a);
    DigitsThenDotAt(s, j, b);
    RunLength(s, k, |c|);
    OffsetsFrom(s, i, j, k, |c|);
    GroupsAt(s, i);
    assert s[k..k + |c|] == c;
  }

  /** Where the pieces of `a.b.c` stand in s when it is spelled from i to the end. */
  lemma Pieces(s: string, i: nat, a: string, b: string, c: string)
    requires i <= |s| && s[i..] == Groups(a, b, c).Text()
    requires Groups(a, b, c).AllDigits()
    ensures var j := i + |a| + 1;
      var k := j + |b| + 1;
      && k + |c| == |s|
      && s[i..j - 1] == a && s[j - 1] == '.'
      && s[j..k - 1] == b && s[k - 1] == '.'
      && s[k..] == c
      && (forall x :: k <= x < |s| ==> Numerals.IsDigit(s[x]))
  {
    var j := i + |a| + 1;
    var k := j + |b| + 1;
    var t := s[i..];
    assert t == a + "." + b + "." + c;
    assert s[i..j - 1] == t[..|a|];
    assert s[j..k - 1] == t[|a| + 1..|a| + 1 + |b|];
    assert s[j - 1] == t[|a|];
    assert s[k - 1] == t[|a| + 1 + |b|];
    assert s[k..] == t[|a| + |b| + 2..];
    forall x | k <= x < |s| ensures Numerals.IsDigit(s[x]) {
      assert s[x] == c[x - k];
    }
  }

  /** A digit run a standing at i and followed by a dot is what `\d+\.` takes there. */
  lemma DigitsThenDotAt(s: string, i: nat, a: string)
    requires i + |a| < |s| && s[i..i + |a|] == a && Numerals.IsDigits(a) && s[i + |a|] == '.'
    ensures DigitsThenDot(s, i) == Some(i + |a| + 1)
  {
    forall x | i <= x < i + |a| ensures Numerals.IsDigit(s[x]) {
      assert s[x] == a[x - i];
    }
    RunLength(s, i, |a|);
  }

  /** The hand-written matcher accepts exactly the strings of the described shape. */
  lemma ValidVersionIff(s: string)
    ensures IsValidVersion(s) <==> VersionShape(s)
  {
    var i := if |s| > 0 && s[0] == 'v' then 1 else 0;
    assert s[i..] == if |s| > 0 && s[0] == 'v' then s[1..] else s;
    if IsValidVersion(s) {
      MatchSplits(s, i);
      TripleSpelled(s, i);
    }
    if VersionShape(s) {
      var parts := Text.Split(s[i..], '.');
      assert parts[0] in parts && parts[1] in parts && parts[2] in parts;
      JoinThree(parts[0], parts[1], parts[2]);
      assert parts == [parts[0], parts[1], parts[2]];
      assert Text.Join(parts, ['.']) == s[i..];
      assert ['.'] == ".";
      SplitMatches(s, i, parts[0], parts[1], parts[2]);
    }
  }

  /**
   * The extracted version is the leftmost match, is itself a valid version
   * with its `v`, and there is none exactly when no offset matches.
   */
  lemma ExtractedVersion(url: string)
    ensures ExtractVersion(url).Some? <==> FindFrom(url, 0).Some?
    ensures ExtractVersion(url).None? <==> forall q :: 0 <= q < |url| ==> !MatchesAt(url, q)
    ensures FindFrom(url, 0).Some? ==>
      var q := FindFrom(url, 0).value;
      var g := TripleAt(url, q + 1).value;
      var v := ExtractVersion(url).value;
      && (forall p :: 0 <= p < q ==> !MatchesAt(url, p))
      && q + |v| <= |url| && url[q..q + |v|] == v
      && v == "v" + g.Text()
      && IsValidVersion(v)
  {
    if FindFrom(url, 0).Some? {
      var q := FindFrom(url, 0).value;
      ExtractAt(url);
      MatchIsVersion(url, q);
      TripleSpelled(url, q + 1);
    }
  }

  lemma ExtractAt(url: string)
    requires FindFrom(url, 0).Some?
    ensures var q := FindFrom(url, 0).value;
      var e := TripleEnd(url, q + 1);
      q <= e <= |url| && ExtractVersion(url) == Some(url[q..e])
    ensures var q := FindFrom(url, 0).value;
      var v := ExtractVersion(url).value;
      q + |v| <= |url| && url[q..q + |v|] == v
  {
    var q := FindFrom(url, 0).value;
    var e := TripleEnd(url, q + 1);
    assert |url[q..e]| == e - q;
  }

  /** The text a match covers is `v` and the three groups, and a valid version. */
  lemma MatchIsVersion(s: string, q: nat)
    requires MatchesAt(s, q)
    ensures var g := TripleAt(s, q + 1).value;
      var v := s[q..TripleEnd(s, q + 1)];
      v == "v" + g.Text() && IsValidVersion(v)
  {
    var g := TripleAt(s, q + 1).value;
    var e := TripleEnd(s, q + 1);
    TripleSpelled(s, q + 1);
    SliceTail(s, q, e);
    assert s[q..e] == "v" + g.Text();
    SpelledIsValid(g);
  }

  /** `v` followed by three digit runs joined by dots is a valid version. */
  lemma SpelledIsValid(g: Groups)
    requires g.AllDigits()
    ensures IsValidVersion("v" + g.Text())
  {
    var v := "v" + g.Text();
    assert v[1..] == g.Text();
    SplitMatches(v, 1, g.major, g.minor, g.patch);
    ValidFromV(v);
  }

  lemma SliceTail<T>(s: seq<T>, q: nat, e: nat)
    requires q < e <= |s|
    ensures s[q..e][0] == s[q] && s[q..e][1..] == s[q + 1..e]
  {
  }

  lemma ValidFromV(v: string)
    requires |v| > 0 && v[0] == 'v' && OffsetsAt(v, 1).Some? && TripleEnd(v, 1) == |v|
    ensures IsValidVersion(v)
  {
  }

  /** A version with its `v` is found in itself, whole. */
  lemma ExtractOwnVersion(v: string)
    requires IsValidVersion(v) && |v| > 0 && v[0] == 'v'
    ensures ExtractVersion(v) == Some(v)
    ensures MatchGroups(v) == TripleAt(v, 1)
  {
    ValidWithV(v);
    FoundHere(v, 0);
    ExtractFound(v, 0);
    assert v[0..|v|] == v;
  }

  lemma ValidWithV(v: string)
    requires IsValidVersion(v) && |v| > 0 && v[0] == 'v'
    ensures MatchesAt(v, 0) && TripleEnd(v, 1) == |v|
  {
  }

  /** What the search reports when the leftmost match is at q. */
  lemma ExtractFound(url: string, q: nat)
    requires FindFrom(url, 0) == Some(q)
    ensures ExtractVersion(url) == Some(url[q..TripleEnd(url, q + 1)])
    ensures MatchGroups(url) == TripleAt(url, q + 1)
  {
  }

  lemma FoundHere(s: string, p: nat)
    requires MatchesAt(s, p)
    ensures FindFrom(s, p) == Some(p)
  {
  }

  /** The characters a valid version is made of. */
  predicate VersionChar(c: char)
  {
    c == 'v' || c == '.' || Numerals.IsDigit(c)
  }

  lemma GroupsChars(g: Groups)
    requires g.AllDigits()
    ensures forall k :: 0 <= k < |g.Text()| ==> VersionChar(g.Text()[k])
  {
    var t := g.Text();
    forall k | 0 <= k < |t| ensures VersionChar(t[k]) {
      if k < |g.major| {
        assert t[k] == g.major[k];
      } else if |g.major| < k < |g.major| + 1 + |g.minor| {
        assert t[k] == g.minor[k - |g.major| - 1];
      } else if k > |g.major| + 1 + |g.minor| {
        assert t[k] == g.patch[k - |g.major| - |g.minor| - 2];
      }
    }
  }

  /**
   * A valid version is non-empty and made only of `v`, dots and digits: no
   * newline, and no white space for `trim()` to remove.
   */
  lemma ValidVersionText(s: string)
    requires IsValidVersion(s)
    ensures |s| > 0 && forall k :: 0 <= k < |s| ==> VersionChar(s[k])
    ensures '\n' !in s && Text.Trimmed(s)
  {
    ValidVersionChars(s);
    forall k | 0 <= k < |s| ensures s[k] != '\n' {
      VersionCharNotSpace(s[k]);
    }
    VersionCharNotSpace(s[0]);
    VersionCharNotSpace(s[|s| - 1]);
  }

  lemma VersionCharNotSpace(c: char)
    requires VersionChar(c)
    ensures c != '\n' && !Text.IsSpace(c)
  {
  }

  lemma ValidVersionChars(s: string)
    requires IsValidVersion(s)
    ensures |s| > 0 && forall k :: 0 <= k < |s| ==> VersionChar(s[k])
  {
    var i := if |s| > 0 && s[0] == 'v' then 1 else 0;
    var g := TripleAt(s, i).value;
    TripleSpelled(s, i);
    GroupsChars(g);
    assert s[i..] == g.Text();
    forall k | 0 <= k < |s| ensures VersionChar(s[k]) {
      if k >= i {
        assert s[k] == g.Text()[k - i];
      }
    }
  }
}
