/**
 * The clean-up `deleteProxy` applies to the file after cutting a block out:
 * `replace(/\n{3,}/g, '\n\n')`, which turns every run of three or more
 * newlines into exactly two and leaves every other character alone.
 */
module NewlineRuns {

  /** The length of the run of newlines at the start of s. */
  function LeadingNewlines(s: string): (n: nat)
    ensures n <= |s|
    ensures forall i :: 0 <= i < n ==> s[i] == '\n'
    ensures n < |s| ==> s[n] != '\n'
  {
    if |s| > 0 && s[0] == '\n' then 1 + LeadingNewlines(s[1..]) else 0
  }

  /**
   * `s.replace(/\n{3,}/g, '\n\n')`. The pattern is greedy and the search
   * resumes after each replacement, so every maximal run is one match.
   */
  function Collapse(s: string): string
    decreases |s|
  {
    if |s| == 0 then ""
    else if s[0] != '\n' then [s[0]] + Collapse(s[1..])
    else
      var n := LeadingNewlines(s);
      (if n >= 3 then "\n\n" else s[..n]) + Collapse(s[n..])
  }

  /** No three newlines in a row. */
  predicate NoTriple(s: string)
  {
    forall i :: 0 <= i < |s| - 2 ==> !(s[i] == '\n' && s[i + 1] == '\n' && s[i + 2] == '\n')
  }

  /** The characters that are not newlines, in order. */
  function Strip(s: string): string
  {
    if |s| == 0 then "" else (if s[0] == '\n' then "" else [s[0]]) + Strip(s[1..])
  }

  /** The collapsed text is empty only when s is, and begins with the same character. */
  lemma CollapseStart(s: string)
    ensures |Collapse(s)| == 0 <==> |s| == 0
    ensures |s| > 0 ==> Collapse(s)[0] == s[0]
  {
  }

  /** No run of three newlines survives the clean-up. */
  lemma {:induction false} CollapseNoTriple(s: string)
    ensures NoTriple(Collapse(s))
    decreases |s|
  {
    if |s| > 0 {
      if s[0] != '\n' {
        CollapseNoTriple(s[1..]);
        var r := Collapse(s);
        assert r == [s[0]] + Collapse(s[1..]);
        forall i | 0 <= i < |r| - 2 ensures !(r[i] == '\n' && r[i + 1] == '\n' && r[i + 2] == '\n') {
          if i > 0 {
            assert r[i] == Collapse(s[1..])[i - 1];
          }
        }
      } else {
        var n := LeadingNewlines(s);
        var head := if n >= 3 then "\n\n" else s[..n];
        var rest := s[n..];
        CollapseNoTriple(rest);
        CollapseStart(rest);
        HeadThenOther(head, Collapse(rest));
      }
    }
  }

  /** At most two newlines followed by text that starts with something else. */
  lemma HeadThenOther(head: string, tail: string)
    requires |head| <= 2 && forall i :: 0 <= i < |head| ==> head[i] == '\n'
    requires NoTriple(tail)
    requires |tail| > 0 ==> tail[0] != '\n'
    ensures NoTriple(head + tail)
  {
    var r := head + tail;
    forall i | 0 <= i < |r| - 2 ensures !(r[i] == '\n' && r[i + 1] == '\n' && r[i + 2] == '\n') {
      if i >= |head| {
        assert r[i] == tail[i - |head|];
      } else if i + 2 >= |head| {
        assert r[|head|] == tail[0];
      }
    }
  }

  /** Text without a run of three newlines is left exactly as it is. */
  lemma {:induction false} CollapseKeeps(s: string)
    requires NoTriple(s)
    ensures Collapse(s) == s
    decreases |s|
  {
    if |s| > 0 {
      var n := LeadingNewlines(s);
      if s[0] != '\n' {
        NoTripleSuffix(s, 1);
        CollapseKeeps(s[1..]);
      } else {
        ShortRun(s);
        NoTripleSuffix(s, n);
        CollapseKeeps(s[n..]);
        assert s[..n] + s[n..] == s;
      }
    }
  }

  /** Without three newlines in a row, a leading run has at most two. */
  lemma ShortRun(s: string)
    requires NoTriple(s)
    ensures LeadingNewlines(s) < 3
  {
    if |s| >= 3 {
      assert !(s[0] == '\n' && s[1] == '\n' && s[2] == '\n');
    }
  }

  lemma NoTripleSuffix(s: string, k: nat)
    requires NoTriple(s) && k <= |s|
    ensures NoTriple(s[k..])
  {
    var t := s[k..];
    forall i | 0 <= i < |t| - 2 ensures !(t[i] == '\n' && t[i + 1] == '\n' && t[i + 2] == '\n') {
      assert t[i] == s[k + i] && t[i + 1] == s[k + i + 1] && t[i + 2] == s[k + i + 2];
    }
  }

  /** The clean-up changes the text exactly when it holds three newlines in a row. */
  lemma CollapseChanges(s: string)
    ensures Collapse(s) == s <==> NoTriple(s)
  {
    CollapseNoTriple(s);
    if NoTriple(s) {
      CollapseKeeps(s);
    }
  }

  /** Cleaning up twice is cleaning up once. */
  lemma CollapseIdempotent(s: string)
    ensures Collapse(Collapse(s)) == Collapse(s)
  {
    CollapseNoTriple(s);
    CollapseKeeps(Collapse(s));
  }

  /** Only newlines are removed: every other character stays, in order. */
  lemma {:induction false} CollapseKeepsText(s: string)
    ensures Strip(Collapse(s)) == Strip(s)
    decreases |s|
  {
    if |s| > 0 {
      if s[0] != '\n' {
        CollapseKeepsText(s[1..]);
        OtherStep(s);
      } else {
        CollapseKeepsText(s[LeadingNewlines(s)..]);
        RunStep(s);
      }
    }
  }

  lemma OtherStep(s: string)
    requires |s| > 0 && s[0] != '\n'
    ensures Strip(Collapse(s)) == [s[0]] + Strip(Collapse(s[1..]))
    ensures Strip(s) == [s[0]] + Strip(s[1..])
  {
    StripAppend([s[0]], Collapse(s[1..]));
  }

  lemma RunStep(s: string)
    requires |s| > 0 && s[0] == '\n'
    ensures Strip(Collapse(s)) == Strip(Collapse(s[LeadingNewlines(s)..]))
    ensures Strip(s) == Strip(s[LeadingNewlines(s)..])
  {
    CollapsedRun(s);
    StripRun(s);
  }

  /** Dropping the leading newlines does not change the stripped text. */
  lemma {:induction false} StripRun(s: string)
    ensures Strip(s) == Strip(s[LeadingNewlines(s)..])
  {
    if |s| > 0 && s[0] == '\n' {
      StripRun(s[1..]);
      assert s[1..][LeadingNewlines(s[1..])..] == s[LeadingNewlines(s)..];
    }
  }

  lemma CollapsedRun(s: string)
    requires |s| > 0 && s[0] == '\n'
    ensures Strip(Collapse(s)) == Strip(Collapse(s[LeadingNewlines(s)..]))
  {
    var n := LeadingNewlines(s);
    var head := if n >= 3 then "\n\n" else s[..n];
    var rest := Collapse(s[n..]);
    assert Collapse(s) == head + rest;
    NewlinesThen(head, rest);
  }

  lemma NewlinesThen(a: string, b: string)
    requires forall i :: 0 <= i < |a| ==> a[i] == '\n'
    ensures Strip(a + b) == Strip(b)
  {
    StripAppend(a, b);
    StripNewlines(a);
  }

  lemma {:induction false} StripAppend(a: string, b: string)
    ensures Strip(a + b) == Strip(a) + Strip(b)
  {
    if |a| == 0 {
      assert a + b == b;
    } else {
      assert (a + b)[1..] == a[1..] + b;
      StripAppend(a[1..], b);
    }
  }

  lemma {:induction false} StripNewlines(s: string)
    requires forall i :: 0 <= i < |s| ==> s[i] == '\n'
    ensures Strip(s) == ""
  {
    if |s| > 0 {
      StripNewlines(s[1..]);
    }
  }
}
