/**
 * The `[[proxies]]` block splitter. The client file is read with the regular
 * expression `\[\[proxies\]\]([\s\S]*?)(?=\[\[proxies\]\]|$)` under `matchAll`:
 * every match starts at an occurrence of the marker `[[proxies]]` and runs
 * lazily up to the next occurrence or to the end of the text. What precedes
 * the first occurrence is the preamble (the global settings).
 */
module ProxyBlocks {
  import opened Wrappers
  import Text
  import StringReplace

  const Marker: string := "[[proxies]]"

  /** The marker starts at index i of s. */
  predicate OccursAt(s: string, i: int)
  {
    0 <= i && i + |Marker| <= |s| && s[i..i + |Marker|] == Marker
  }

  predicate NoMarker(s: string)
  {
    forall i :: 0 <= i < |s| ==> !OccursAt(s, i)
  }

  /**
   * A block: text that starts with the marker and holds no other occurrence of
   * it. Every span the regular expression matches is one.
   */
  predicate IsBlock(b: string)
  {
    OccursAt(b, 0) && forall i :: 0 < i < |b| ==> !OccursAt(b, i)
  }

  /** The text up to the next marker, and the marker-delimited spans after it. */
  datatype Blocks = Blocks(preamble: string, spans: seq<string>)

  function Concat(parts: seq<string>): string
  {
    if |parts| == 0 then "" else parts[0] + Concat(parts[1..])
  }

  /** The first occurrence of the marker at or after `from`. */
  function FindMarker(s: string, from: nat): Option<nat>
    decreases |s| - from
  {
    if from + |Marker| > |s| then None
    else if OccursAt(s, from) then Some(from)
    else FindMarker(s, from + 1)
  }

  /** FindMarker finds the first occurrence at or after `from`, and None means there is none. */
  lemma {:induction false} FindMarkerSound(s: string, from: nat)
    ensures var r := FindMarker(s, from);
      && (r.Some? ==> from <= r.value && OccursAt(s, r.value))
      && (r.Some? ==> forall i :: from <= i < r.value ==> !OccursAt(s, i))
      && (r.None? ==> forall i :: from <= i ==> !OccursAt(s, i))
    decreases |s| - from
  {
    if from + |Marker| <= |s| && !OccursAt(s, from) {
      FindMarkerSound(s, from + 1);
    }
  }

  /** No proper suffix of the marker is also a prefix of it. */
  lemma MarkerBordersFree(d: int)
    requires 0 < d < |Marker|
    ensures Marker[d..] != Marker[..|Marker| - d]
  {
    if d == 1 {
      assert Marker[d..][1] != Marker[..|Marker| - d][1];
    } else {
      assert Marker[d..][0] != Marker[..|Marker| - d][0];
    }
  }

  /** No two occurrences of the marker overlap. */
  lemma MarkerDoesNotOverlap(s: string, i: int, j: int)
    requires OccursAt(s, i) && i < j < i + |Marker|
    ensures !OccursAt(s, j)
  {
    var d := j - i;
    MarkerBordersFree(d);
    var m := s[i..i + |Marker|];
    assert m == Marker;
    assert s[j..i + |Marker|] == m[d..];
    if j + |Marker| <= |s| {
      assert s[j..j + |Marker|][..|Marker| - d] == s[j..i + |Marker|];
    }
  }

  /** An occurrence inside a slice is an occurrence in the whole text. */
  lemma OccursInSlice(s: string, lo: int, hi: int, i: int)
    requires 0 <= lo <= hi <= |s| && 0 <= i
    ensures OccursAt(s[lo..hi], i) ==> OccursAt(s, lo + i)
  {
    if OccursAt(s[lo..hi], i) {
      var t := s[lo..hi];
      assert i + |Marker| <= |t|;
      var u, w := s[lo + i..lo + i + |Marker|], t[i..i + |Marker|];
      forall k | 0 <= k < |Marker| ensures u[k] == w[k] {
        assert t[i + k] == s[lo + i + k];
      }
      assert u == w;
    }
  }

  /** The matches of the regular expression from an occurrence at `start` onward. */
  function SpansFrom(s: string, start: nat): seq<string>
    requires OccursAt(s, start)
    decreases |s| - start
  {
    FindMarkerSound(s, start + |Marker|);
    match FindMarker(s, start + |Marker|)
    case None => [s[start..]]
    case Some(next) => [s[start..next]] + SpansFrom(s, next)
  }

  /** The spans are blocks and together they are the text from `start` on. */
  lemma {:induction false} SpansFromSound(s: string, start: nat)
    requires OccursAt(s, start)
    ensures |SpansFrom(s, start)| >= 1
    ensures Concat(SpansFrom(s, start)) == s[start..]
    ensures forall k :: 0 <= k < |SpansFrom(s, start)| ==> IsBlock(SpansFrom(s, start)[k])
    decreases |s| - start
  {
    FindMarkerSound(s, start + |Marker|);
    match FindMarker(s, start + |Marker|)
    case None =>
      SpanIsBlock(s, start, |s|);
      assert s[start..|s|] == s[start..];
      assert Concat([s[start..]]) == s[start..];
    case Some(next) =>
      SpanIsBlock(s, start, next);
      SpansFromSound(s, next);
      var rest := SpansFrom(s, next);
      var r := [s[start..next]] + rest;
      assert r == SpansFrom(s, start);
      assert r[1..] == rest;
      assert s[start..] == s[start..next] + s[next..];
      forall k | 0 <= k < |r| ensures IsBlock(r[k]) {
        if k > 0 { assert r[k] == rest[k - 1]; }
      }
  }

  /** A stretch of s from an occurrence up to the next one (or the end) is a block. */
  lemma SpanIsBlock(s: string, start: nat, end: nat)
    requires OccursAt(s, start) && start + |Marker| <= end <= |s|
    requires forall i :: start + |Marker| <= i < end ==> !OccursAt(s, i)
    requires end == |s| || OccursAt(s, end)
    ensures IsBlock(s[start..end])
  {
    var b := s[start..end];
    assert b[0..|Marker|] == s[start..start + |Marker|];
    forall i | 0 < i < |b| ensures !OccursAt(b, i) {
      OccursInSlice(s, start, end, i);
      if OccursAt(b, i) {
        if i < |Marker| {
          MarkerDoesNotOverlap(s, start, start + i);
        }
      }
    }
  }

  /** The preamble and the spans `matchAll` yields. */
  function Split(s: string): Blocks
  {
    FindMarkerSound(s, 0);
    match FindMarker(s, 0)
    case None => Blocks(s, [])
    case Some(first) => Blocks(s[..first], SpansFrom(s, first))
  }

  /** The split is a decomposition: a marker-free preamble, then blocks, making up the text. */
  lemma SplitSound(s: string)
    ensures Split(s).preamble + Concat(Split(s).spans) == s
    ensures NoMarker(Split(s).preamble)
    ensures forall k :: 0 <= k < |Split(s).spans| ==> IsBlock(Split(s).spans[k])
  {
    FindMarkerSound(s, 0);
    match FindMarker(s, 0)
    case None =>
      assert Concat([]) == "";
    case Some(first) =>
      PreambleHasNoMarker(s, first);
      SpansFromSound(s, first);
      assert s == s[..first] + s[first..];
  }

  lemma PreambleHasNoMarker(s: string, first: nat)
    requires first <= |s| && forall i :: 0 <= i < first ==> !OccursAt(s, i)
    ensures NoMarker(s[..first])
  {
    forall i | 0 <= i < first ensures !OccursAt(s[..first], i) {
      OccursInSlice(s, 0, first, i);
      assert s[0..first] == s[..first];
    }
  }

  // ---------------------------------------------------------------------------
  // Occurrences across a concatenation

  lemma OccursInLeft(a: string, b: string, i: int)
    requires 0 <= i && i + |Marker| <= |a|
    ensures OccursAt(a + b, i) <==> OccursAt(a, i)
  {
    assert (a + b)[i..i + |Marker|] == a[i..i + |Marker|];
  }

  lemma OccursInRight(a: string, b: string, i: int)
    requires 0 <= i
    ensures OccursAt(a + b, |a| + i) <==> OccursAt(b, i)
  {
    if |a| + i + |Marker| <= |a + b| {
      assert (a + b)[|a| + i..|a| + i + |Marker|] == b[i..i + |Marker|];
    }
  }

  lemma {:induction false} ConcatAppend(a: seq<string>, b: seq<string>)
    ensures Concat(a + b) == Concat(a) + Concat(b)
  {
    if |a| == 0 {
      assert a + b == b;
    } else {
      assert (a + b)[1..] == a[1..] + b;
      ConcatAppend(a[1..], b);
    }
  }

  lemma ConcatAround(parts: seq<string>, k: nat)
    requires k < |parts|
    ensures Concat(parts) == Concat(parts[..k]) + parts[k] + Concat(parts[k + 1..])
  {
    ConcatAppend(parts[..k], parts[k..]);
    assert parts[..k] + parts[k..] == parts;
    assert parts[k..][1..] == parts[k + 1..];
  }

  /**
   * The spans from `start` on are determined by the text: if it is a sequence
   * of blocks, those blocks are the spans.
   */
  lemma {:induction false} SpansFromBlocks(s: string, start: nat, bs: seq<string>)
    requires |bs| >= 1 && forall k :: 0 <= k < |bs| ==> IsBlock(bs[k])
    requires start <= |s| && s[start..] == Concat(bs)
    ensures OccursAt(s, start)
    ensures SpansFrom(s, start) == bs
    decreases |bs|
  {
    var b := bs[0];
    var rest := Concat(bs[1..]);
    FirstBlockAt(s, start, b, rest);
    if |bs| == 1 {
      assert rest == "";
      forall i | start + |Marker| <= i ensures !OccursAt(s, i) {
        OccursInRight(s[..start], b + rest, i - start);
      }
      FindMarkerAbsent(s, start + |Marker|);
      assert s[start..] == b;
    } else {
      var next := start + |b|;
      NextBlockAt(s, start, b, rest, bs[1]);
      FindMarkerFirst(s, start + |Marker|, next);
      assert s[next..] == rest;
      SpansFromBlocks(s, next, bs[1..]);
      assert s[start..next] == b;
      assert [b] + bs[1..] == bs;
    }
  }

  /** A block at `start`: an occurrence there and none after its own marker within it. */
  lemma FirstBlockAt(s: string, start: nat, b: string, rest: string)
    requires IsBlock(b) && start <= |s| && s[start..] == b + rest
    ensures OccursAt(s, start)
    ensures forall i :: start + |Marker| <= i && i + |Marker| <= start + |b| ==> !OccursAt(s, i)
  {
    assert s == s[..start] + (b + rest);
    OccursInRight(s[..start], b + rest, 0);
    OccursInLeft(b, rest, 0);
    forall i | start + |Marker| <= i && i + |Marker| <= start + |b| ensures !OccursAt(s, i) {
      OccursInRight(s[..start], b + rest, i - start);
      OccursInLeft(b, rest, i - start);
    }
  }

  /** When another block follows, the next occurrence after `start` is where it begins. */
  lemma NextBlockAt(s: string, start: nat, b: string, rest: string, b1: string)
    requires IsBlock(b) && IsBlock(b1) && start <= |s| && s[start..] == b + rest
    requires |rest| >= |b1| && rest[..|b1|] == b1
    requires forall i :: start + |Marker| <= i && i + |Marker| <= start + |b| ==> !OccursAt(s, i)
    ensures start + |b| <= |s| && s[start + |b|..] == rest
    ensures OccursAt(s, start + |b|)
    ensures forall i :: start + |Marker| <= i < start + |b| ==> !OccursAt(s, i)
  {
    var next := start + |b|;
    assert s[next..] == rest by {
      assert s == s[..start] + b + rest;
    }
    assert s == s[..next] + rest;
    OccursInRight(s[..next], rest, 0);
    assert rest == b1 + rest[|b1|..];
    OccursInLeft(b1, rest[|b1|..], 0);
    forall i | start + |Marker| <= i < next ensures !OccursAt(s, i) {
      if i + |Marker| > next && OccursAt(s, i) {
        MarkerDoesNotOverlap(s, i, next);
      }
    }
  }

  lemma {:induction false} FindMarkerAbsent(s: string, from: nat)
    requires forall i :: from <= i ==> !OccursAt(s, i)
    ensures FindMarker(s, from) == None
    decreases |s| - from
  {
    if from + |Marker| <= |s| {
      FindMarkerAbsent(s, from + 1);
    }
  }

  lemma FindMarkerFirst(s: string, from: nat, at: nat)
    requires from <= at && OccursAt(s, at)
    requires forall i :: from <= i < at ==> !OccursAt(s, i)
    ensures FindMarker(s, from) == Some(at)
    decreases at - from
  {
    if from < at {
      FindMarkerFirst(s, from + 1, at);
    }
  }

  /**
   * The decomposition is unique: a marker-free preamble followed by blocks is
   * split back into exactly that preamble and those blocks.
   */
  lemma SplitOfBlocks(p: string, bs: seq<string>)
    requires NoMarker(p)
    requires forall k :: 0 <= k < |bs| ==> IsBlock(bs[k])
    ensures Split(p + Concat(bs)) == Blocks(p, bs)
  {
    var s := p + Concat(bs);
    if |bs| == 0 {
      assert s == p;
      FindMarkerAbsent(s, 0);
    } else {
      assert s[|p|..] == Concat(bs);
      SpansFromBlocks(s, |p|, bs);
      forall i | 0 <= i < |p| ensures !OccursAt(s, i) {
        if i + |Marker| <= |p| {
          OccursInLeft(p, Concat(bs), i);
        } else if OccursAt(s, i) {
          MarkerDoesNotOverlap(s, i, |p|);
        }
      }
      FindMarkerFirst(s, 0, |p|);
      assert s[..|p|] == p;
    }
  }

  /** The split is a decomposition, and the only one: both directions of the characterisation. */
  lemma SplitCharacterised(s: string, p: string, bs: seq<string>)
    ensures Split(s) == Blocks(p, bs)
      <==> (p + Concat(bs) == s && NoMarker(p) && forall k :: 0 <= k < |bs| ==> IsBlock(bs[k]))
  {
    SplitSound(s);
    if p + Concat(bs) == s && NoMarker(p) && forall k :: 0 <= k < |bs| ==> IsBlock(bs[k]) {
      SplitOfBlocks(p, bs);
    }
  }

  // ---------------------------------------------------------------------------
  // Building blocks and editing spans

  /** What follows the marker in a span: the regular expression's capture group 1. */
  function Body(b: string): (r: string)
    requires IsBlock(b)
    ensures Marker + r == b
  {
    b[|Marker|..]
  }

  /** Two marker-free texts glued at a newline hold no marker: the marker has no newline. */
  lemma NoMarkerAppend(a: string, b: string)
    requires NoMarker(a) && NoMarker(b)
    requires (|a| > 0 && a[|a| - 1] == '\n') || (|b| > 0 && b[0] == '\n')
    ensures NoMarker(a + b)
  {
    forall i | 0 <= i < |a + b| ensures !OccursAt(a + b, i) {
      if i + |Marker| <= |a| {
        OccursInLeft(a, b, i);
      } else if i >= |a| {
        OccursInRight(a, b, i - |a|);
      } else {
        var k := if |a| > 0 && a[|a| - 1] == '\n' then |a| - 1 else |a|;
        assert (a + b)[k] == '\n' && i <= k < i + |Marker|;
      }
    }
  }

  lemma NoMarkerNewline()
    ensures NoMarker("\n") && NoMarker("\n\n") && NoMarker("")
  {
  }

  /** The marker followed by marker-free text is a block. */
  lemma MarkerThenText(body: string)
    requires NoMarker(body)
    ensures IsBlock(Marker + body)
  {
    var b := Marker + body;
    assert b[..|Marker|] == Marker;
    forall i | 0 < i < |b| ensures !OccursAt(b, i) {
      if i < |Marker| {
        MarkerDoesNotOverlap(b, 0, i);
      } else {
        OccursInRight(Marker, body, i - |Marker|);
      }
    }
  }

  /** A block's text after the marker holds no marker. */
  lemma BodyHasNoMarker(b: string, hi: int)
    requires IsBlock(b) && |Marker| <= hi <= |b|
    ensures NoMarker(b[|Marker|..hi])
  {
    forall i | 0 <= i < |b[|Marker|..hi]| ensures !OccursAt(b[|Marker|..hi], i) {
      OccursInSlice(b, |Marker|, hi, i);
    }
  }

  /** A block followed by a blank line is still a block: the marker holds no newline. */
  lemma BlockThenBlankLine(b: string)
    requires IsBlock(b)
    ensures IsBlock(b + "\n\n")
  {
    var body := Body(b);
    BodyHasNoMarker(b, |b|);
    assert b[|Marker|..|b|] == body;
    NoMarkerNewline();
    NoMarkerAppend(body, "\n\n");
    MarkerThenText(body + "\n\n");
    assert Marker + (body + "\n\n") == b + "\n\n";
  }

  /** Trimming a block only drops trailing white space; what remains is still a block. */
  lemma TrimBlock(b: string)
    requires IsBlock(b)
    ensures Text.Trim(b) == Text.TrimEnd(b)
    ensures |Marker| <= |Text.Trim(b)| && Text.Trim(b) == b[..|Text.Trim(b)|]
    ensures IsBlock(Text.Trim(b))
    ensures IsBlock(Text.Trim(b) + "\n\n")
  {
    assert !Text.IsSpace(b[0]);
    assert Text.TrimStart(b) == b;
    var t := Text.TrimEnd(b);
    assert !Text.IsSpace(b[|Marker| - 1]);
    assert |Marker| <= |t|;
    BodyHasNoMarker(b, |t|);
    assert t == Marker + b[|Marker|..|t|];
    MarkerThenText(b[|Marker|..|t|]);
    NoMarkerNewline();
    if |t| > |Marker| {
      NoMarkerAppend(b[|Marker|..|t|], "\n\n");
    } else {
      assert b[|Marker|..|t|] + "\n\n" == "\n\n";
    }
    assert t + "\n\n" == Marker + (b[|Marker|..|t|] + "\n\n");
    MarkerThenText(b[|Marker|..|t|] + "\n\n");
  }

  /** Where span k begins in the text. */
  function SpanStart(bl: Blocks, k: nat): nat
    requires k <= |bl.spans|
  {
    |bl.preamble| + |Concat(bl.spans[..k])|
  }

  /**
   * The text with span k replaced in place: what `content.replace(match[0],
   * text)` does when the leftmost occurrence of the span's text is the span
   * itself (see `ReplaceFirstIsReplaceSpan`).
   */
  function ReplaceSpan(s: string, k: nat, text: string): string
    requires k < |Split(s).spans|
  {
    var bl := Split(s);
    bl.preamble + Concat(bl.spans[..k]) + text + Concat(bl.spans[k + 1..])
  }

  /**
   * Replacing span k keeps the text before the offset where the span was
   * matched and the text after its end, and puts `text` between.
   */
  lemma SpliceAt(p: string, spans: seq<string>, k: nat, text: string)
    requires k < |spans|
    ensures var s := p + Concat(spans); var start := |p| + |Concat(spans[..k])|;
      start + |spans[k]| <= |s|
      && s[start..start + |spans[k]|] == spans[k]
      && p + Concat(spans[..k]) + text + Concat(spans[k + 1..]) == s[..start] + text + s[start + |spans[k]|..]
  {
    ConcatAround(spans, k);
    var before := p + Concat(spans[..k]);
    var after := Concat(spans[k + 1..]);
    var s := p + Concat(spans);
    assert s == before + spans[k] + after;
    assert s[..|before|] == before;
    assert s[|before|..|before| + |spans[k]|] == spans[k];
    assert s[|before| + |spans[k]|..] == after;
  }

  /**
   * The text of span k occurs nowhere before the span: the first occurrence
   * `replace` finds is the span itself.
   */
  predicate MatchedFirst(s: string, k: nat)
  {
    && k < |Split(s).spans|
    && forall i :: 0 <= i < SpanStart(Split(s), k) ==> !StringReplace.OccursAt(s, Split(s).spans[k], i)
  }

  /**
   * `replace` with the text of span k finds that span or an earlier copy of
   * its text, never a later one.
   */
  lemma ReplaceFirstNoLater(s: string, k: nat)
    requires k < |Split(s).spans|
    ensures var first := StringReplace.IndexOf(s, Split(s).spans[k], 0);
      first.Some? && first.value <= SpanStart(Split(s), k)
  {
    var bl := Split(s);
    SplitSound(s);
    SpliceAt(bl.preamble, bl.spans, k, "");
    StringReplace.FirstNoLater(s, bl.spans[k], SpanStart(bl, k));
  }

  /** The text in front of span k. */
  function TextBefore(s: string, k: nat): string
    requires k < |Split(s).spans|
  {
    Split(s).preamble + Concat(Split(s).spans[..k])
  }

  /** The text behind span k. */
  function TextAfter(s: string, k: nat): string
    requires k < |Split(s).spans|
  {
    Concat(Split(s).spans[k + 1..])
  }

  /**
   * When `replace` finds span k itself, the substituted replacement stands
   * between the text before the span and the text after it.
   */
  lemma ReplaceFirstAtSpan(s: string, k: nat, text: string)
    requires MatchedFirst(s, k)
    ensures |TextBefore(s, k)| == SpanStart(Split(s), k)
    ensures StringReplace.ReplaceFirst(s, Split(s).spans[k], text)
      == TextBefore(s, k) + StringReplace.Substitute(text, Split(s).spans[k], TextBefore(s, k), TextAfter(s, k)) + TextAfter(s, k)
  {
    var bl := Split(s);
    var before, after := TextBefore(s, k), TextAfter(s, k);
    SplitSound(s);
    ConcatAround(bl.spans, k);
    Text.Regroup(bl.preamble, Concat(bl.spans[..k]) + bl.spans[k], after);
    Text.Regroup(bl.preamble, Concat(bl.spans[..k]), bl.spans[k]);
    StringReplace.ReplaceFirstAround(s, before, bl.spans[k], after, text);
  }

  /**
   * When `replace` finds span k itself, a replacement without `$`, or any
   * text escaped, is the in-place replacement of the span.
   */
  lemma ReplaceFirstIsReplaceSpan(s: string, k: nat, text: string)
    requires MatchedFirst(s, k)
    ensures '$' !in text ==> StringReplace.ReplaceFirst(s, Split(s).spans[k], text) == ReplaceSpan(s, k, text)
    ensures StringReplace.ReplaceFirst(s, Split(s).spans[k], StringReplace.Escape(text)) == ReplaceSpan(s, k, text)
  {
    var bl := Split(s);
    var before, after := TextBefore(s, k), TextAfter(s, k);
    ReplaceFirstAtSpan(s, k, text);
    ReplaceFirstAtSpan(s, k, StringReplace.Escape(text));
    if '$' !in text {
      StringReplace.SubstituteNoDollar(text, bl.spans[k], before, after);
    }
    StringReplace.SubstituteEscaped(text, bl.spans[k], before, after);
  }

  /** Replacing one span by a block changes that span and nothing else. */
  lemma ReplaceSpanIsolated(s: string, k: nat, text: string)
    requires k < |Split(s).spans|
    requires IsBlock(text)
    ensures Split(ReplaceSpan(s, k, text)) == Blocks(Split(s).preamble, Split(s).spans[k := text])
  {
    var bl := Split(s);
    SplitSound(s);
    SpliceBlock(bl.preamble, bl.spans, k, text);
  }

  lemma SpliceBlock(p: string, spans: seq<string>, k: nat, text: string)
    requires k < |spans| && NoMarker(p) && IsBlock(text)
    requires forall j :: 0 <= j < |spans| ==> IsBlock(spans[j])
    ensures Split(p + Concat(spans[..k]) + text + Concat(spans[k + 1..])) == Blocks(p, spans[k := text])
  {
    var replaced := spans[k := text];
    forall j | 0 <= j < |replaced| ensures IsBlock(replaced[j]) {
      if j != k { assert replaced[j] == spans[j]; }
    }
    assert replaced == spans[..k] + [text] + spans[k + 1..];
    ConcatAppend(spans[..k] + [text], spans[k + 1..]);
    ConcatAppend(spans[..k], [text]);
    assert Concat([text]) == text;
    assert p + Concat(spans[..k]) + text + Concat(spans[k + 1..]) == p + Concat(replaced);
    SplitOfBlocks(p, replaced);
  }

  /** Cutting one span out removes exactly that span. */
  lemma RemoveSpanIsolated(s: string, k: nat)
    requires k < |Split(s).spans|
    ensures Split(ReplaceSpan(s, k, "")) == Blocks(Split(s).preamble, Split(s).spans[..k] + Split(s).spans[k + 1..])
  {
    var bl := Split(s);
    SplitSound(s);
    CutBlock(bl.preamble, bl.spans, k);
  }

  lemma CutBlock(p: string, spans: seq<string>, k: nat)
    requires k < |spans| && NoMarker(p)
    requires forall j :: 0 <= j < |spans| ==> IsBlock(spans[j])
    ensures Split(p + Concat(spans[..k]) + "" + Concat(spans[k + 1..])) == Blocks(p, spans[..k] + spans[k + 1..])
  {
    var kept := spans[..k] + spans[k + 1..];
    ConcatAppend(spans[..k], spans[k + 1..]);
    forall j | 0 <= j < |kept| ensures IsBlock(kept[j]) {
      if j < k { assert kept[j] == spans[j]; } else { assert kept[j] == spans[j + 1]; }
    }
    assert p + Concat(spans[..k]) + "" + Concat(spans[k + 1..]) == p + Concat(kept);
    SplitOfBlocks(p, kept);
  }

  // ---------------------------------------------------------------------------
  // Appending a block after the trimmed text

  lemma NoMarkerSlice(s: string, lo: int, hi: int)
    requires NoMarker(s) && 0 <= lo <= hi <= |s|
    ensures NoMarker(s[lo..hi])
  {
    forall i | 0 <= i < hi - lo ensures !OccursAt(s[lo..hi], i) {
      OccursInSlice(s, lo, hi, i);
    }
  }

  /** Trimming never creates a marker. */
  lemma NoMarkerTrim(p: string)
    requires NoMarker(p)
    ensures NoMarker(Text.TrimStart(p)) && NoMarker(Text.Trim(p))
  {
    var t := Text.TrimStart(p);
    NoMarkerSlice(p, |p| - |t|, |p|);
    assert p[|p| - |t|..|p|] == t;
    var r := Text.TrimEnd(t);
    NoMarkerSlice(t, 0, |r|);
    assert t[0..|r|] == r;
  }

  lemma ConcatSnoc(xs: seq<string>, x: string)
    ensures Concat(xs + [x]) == Concat(xs) + x
  {
    ConcatAppend(xs, [x]);
    assert Concat([x]) == x + Concat([]);
  }

  /** Text made of blocks starts with the marker's opening bracket. */
  lemma BlocksOpenWithBracket(spans: seq<string>)
    requires |spans| > 0 && IsBlock(spans[0])
    ensures |Concat(spans)| > 0 && Concat(spans)[0] == '['
  {
    assert spans[0][..|Marker|] == Marker;
    assert Concat(spans) == spans[0] + Concat(spans[1..]);
  }

  /**
   * Trimming a preamble followed by blocks trims the front of the preamble
   * and the end of the last block, and nothing in between.
   */
  lemma TrimAroundBlocks(p: string, spans: seq<string>)
    requires |spans| > 0 && forall k :: 0 <= k < |spans| ==> IsBlock(spans[k])
    ensures var n := |spans|;
      Text.Trim(p + Concat(spans)) == Text.TrimStart(p) + Concat(spans[..n - 1] + [Text.Trim(spans[n - 1])])
  {
    var n := |spans|;
    var init := spans[..n - 1];
    var last := spans[n - 1];
    assert spans == init + [last];
    ConcatSnoc(init, last);
    BlocksOpenWithBracket(spans);
    BlockNotBlank(last);
    Text.TrimAround(p, Concat(init), last);
    TrimBlock(last);
    ConcatSnoc(init, Text.Trim(last));
    Text.Regroup(Text.TrimStart(p), Concat(init), Text.Trim(last));
  }

  lemma BlockNotBlank(b: string)
    requires IsBlock(b)
    ensures !Text.IsBlank(b) && b[0] == '['
  {
    assert b[..|Marker|] == Marker;
    Text.BracketIsNotSpace();
    Text.NotBlankAt(b, 0);
  }

  /**
   * How the text `addProxy` writes splits: the old blocks, the last one
   * trimmed and followed by a blank line, then the new block.
   */
  function Appended(bl: Blocks, b: string): Blocks
  {
    if |bl.spans| == 0 then Blocks(Text.Trim(bl.preamble) + "\n\n", [b])
    else
      var n := |bl.spans|;
      Blocks(Text.TrimStart(bl.preamble), bl.spans[..n - 1] + [Text.Trim(bl.spans[n - 1]) + "\n\n", b])
  }

  /** The old spans, one by one, then the padded last one, then the new block. */
  lemma AppendedSpans(bl: Blocks, b: string)
    ensures var after := Appended(bl, b).spans;
      && |after| == |bl.spans| + 1 && after[|bl.spans|] == b
      && (forall i :: 0 <= i < |bl.spans| - 1 ==> after[i] == bl.spans[i])
      && (|bl.spans| > 0 ==> after[|bl.spans| - 1] == Text.Trim(bl.spans[|bl.spans| - 1]) + "\n\n")
  {
  }

  /** Appending a block after the trimmed text and a blank line adds exactly that block. */
  lemma AppendBlock(s: string, b: string)
    requires IsBlock(b)
    ensures Split(Text.Trim(s) + "\n\n" + b) == Appended(Split(s), b)
  {
    var bl := Split(s);
    SplitSound(s);
    if |bl.spans| == 0 {
      AppendToPreamble(bl.preamble, b);
      assert Concat(bl.spans) == "";
      assert s == bl.preamble;
    } else {
      AppendAfterBlocks(bl.preamble, bl.spans, b);
    }
  }

  lemma AppendToPreamble(p: string, b: string)
    requires NoMarker(p) && IsBlock(b)
    ensures Split(Text.Trim(p) + "\n\n" + b) == Blocks(Text.Trim(p) + "\n\n", [b])
  {
    var q := Text.Trim(p) + "\n\n";
    NoMarkerTrim(p);
    NoMarkerNewline();
    NoMarkerAppend(Text.Trim(p), "\n\n");
    SplitOfBlocks(q, [b]);
    ConcatOne(b);
  }

  lemma ConcatOne(x: string)
    ensures Concat([x]) == x
  {
    assert [x][1..] == [];
    assert x + "" == x;
  }

  lemma AppendAfterBlocks(p: string, spans: seq<string>, b: string)
    requires NoMarker(p) && IsBlock(b)
    requires |spans| > 0 && forall k :: 0 <= k < |spans| ==> IsBlock(spans[k])
    ensures var n := |spans|;
      Split(Text.Trim(p + Concat(spans)) + "\n\n" + b)
        == Blocks(Text.TrimStart(p), spans[..n - 1] + [Text.Trim(spans[n - 1]) + "\n\n", b])
  {
    TrimAroundBlocks(p, spans);
    SplitTrimmedThenBlock(p, spans, b);
  }

  lemma SplitTrimmedThenBlock(p: string, spans: seq<string>, b: string)
    requires NoMarker(p) && IsBlock(b)
    requires |spans| > 0 && forall k :: 0 <= k < |spans| ==> IsBlock(spans[k])
    ensures var n := |spans|;
      Split(Text.TrimStart(p) + Concat(spans[..n - 1] + [Text.Trim(spans[n - 1])]) + "\n\n" + b)
        == Blocks(Text.TrimStart(p), spans[..n - 1] + [Text.Trim(spans[n - 1]) + "\n\n", b])
  {
    var n := |spans|;
    PaddedTrimBlock(spans[n - 1]);
    NoMarkerTrim(p);
    BlocksPrefix(spans, n - 1);
    BlocksThenPadded(Text.TrimStart(p), spans[..n - 1], Text.Trim(spans[n - 1]), b);
  }

  lemma PaddedTrimBlock(b: string)
    requires IsBlock(b)
    ensures IsBlock(Text.Trim(b) + "\n\n")
  {
    TrimBlock(b);
  }

  lemma BlocksPrefix(spans: seq<string>, m: nat)
    requires m <= |spans| && forall k :: 0 <= k < |spans| ==> IsBlock(spans[k])
    ensures forall k :: 0 <= k < |spans[..m]| ==> IsBlock(spans[..m][k])
  {
    forall k | 0 <= k < |spans[..m]| ensures IsBlock(spans[..m][k]) {
      assert spans[..m][k] == spans[k];
    }
  }

  /** A preamble, blocks, one more block padded with a blank line, and a last block. */
  lemma BlocksThenPadded(front: string, init: seq<string>, t: string, b: string)
    requires NoMarker(front) && IsBlock(t + "\n\n") && IsBlock(b)
    requires forall k :: 0 <= k < |init| ==> IsBlock(init[k])
    ensures Split(front + Concat(init + [t]) + "\n\n" + b) == Blocks(front, init + [t + "\n\n", b])
  {
    var bs := init + [t + "\n\n", b];
    TwoBlocks(t + "\n\n", b);
    BlocksAppend(init, [t + "\n\n", b]);
    PaddedConcat(front, init, t, b);
    SplitOfBlocks(front, bs);
  }

  lemma TwoBlocks(x: string, y: string)
    requires IsBlock(x) && IsBlock(y)
    ensures forall k :: 0 <= k < |[x, y]| ==> IsBlock([x, y][k])
  {
  }

  /** The text of the blocks with the last one padded, laid out as a concatenation. */
  lemma PaddedConcat(front: string, init: seq<string>, t: string, b: string)
    ensures front + Concat(init + [t]) + "\n\n" + b == front + Concat(init + [t + "\n\n", b])
  {
    var tt := t + "\n\n";
    var ci := Concat(init);
    ConcatSnoc(init, t);
    ConcatSnoc(init, tt);
    ConcatSnoc(init + [tt], b);
    SnocTwo(init, tt, b);
    PaddedLayout(front, ci, t, b);
  }

  lemma SnocTwo(xs: seq<string>, x: string, y: string)
    ensures xs + [x] + [y] == xs + [x, y]
  {
  }

  lemma PaddedLayout(front: string, ci: string, t: string, b: string)
    ensures front + (ci + t) + "\n\n" + b == front + ((ci + (t + "\n\n")) + b)
  {
  }

  lemma BlocksAppend(a: seq<string>, c: seq<string>)
    requires forall k :: 0 <= k < |a| ==> IsBlock(a[k])
    requires forall k :: 0 <= k < |c| ==> IsBlock(c[k])
    ensures forall k :: 0 <= k < |a + c| ==> IsBlock((a + c)[k])
  {
    forall k | 0 <= k < |a + c| ensures IsBlock((a + c)[k]) {
      if k < |a| {
        assert (a + c)[k] == a[k];
      } else {
        assert (a + c)[k] == c[k - |a|];
      }
    }
  }
}
