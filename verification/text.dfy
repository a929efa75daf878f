/** Substring search and the in-place replacement loop `replace_all_distinct`
    (clang-ehminer/src/DataUtility.cpp), with the quote escaping built on it. */
module Text {
  import opened Wrappers

  /** `w` occurs in `s` starting at position `p`. */
  predicate OccursAt(s: string, w: string, p: nat)
  {
    p + |w| <= |s| && s[p..p + |w|] == w
  }

  /** `std::string::find(w, from)`: the least position at or after `from`
      where `w` occurs, or None for `npos`. */
  function Find(s: string, w: string, from: nat): (r: Option<nat>)
    ensures r.Some? ==> from <= r.value && OccursAt(s, w, r.value)
    ensures r.Some? ==> forall q :: from <= q < r.value ==> !OccursAt(s, w, q)
    ensures r.None? ==> forall q :: from <= q ==> !OccursAt(s, w, q)
    decreases |s| - from
  {
    if from + |w| > |s| then None
    else if s[from..from + |w|] == w then Some(from)
    else Find(s, w, from + 1)
  }

  /** An occurrence at `q` with none between `from` and `q` is what find returns. */
  lemma FindExact(s: string, w: string, from: nat, q: nat)
    requires from <= q && OccursAt(s, w, q)
    requires forall p :: from <= p < q ==> !OccursAt(s, w, p)
    ensures Find(s, w, from) == Some(q)
  {
  }

  /** `s.find(w) != std::string::npos`. */
  predicate Contains(s: string, w: string)
  {
    exists p: nat | p <= |s| - |w| :: OccursAt(s, w, p)
  }

  lemma FindContains(s: string, w: string)
    ensures Contains(s, w) <==> Find(s, w, 0).Some?
  {
    if Find(s, w, 0).Some? {
      assert OccursAt(s, w, Find(s, w, 0).value);
    }
  }

  /** A character of `w` that never appears in `s` rules out every occurrence. */
  lemma MissingChar(s: string, w: string, k: nat)
    requires k < |w| && w[k] !in s
    ensures !Contains(s, w)
  {
    forall p: nat | p <= |s| - |w|
      ensures !OccursAt(s, w, p)
    {
      if p + |w| <= |s| {
        assert s[p..p + |w|][k] == s[p + k];
        assert s[p + k] in s;
      }
    }
  }

  lemma ContainsAt(s: string, w: string, p: nat)
    requires OccursAt(s, w, p)
    ensures Contains(s, w)
  {
  }

  /** An occurrence inside a prefix is an occurrence in the whole string. */
  lemma ContainsExtend(s: string, t: string, w: string)
    requires Contains(s, w)
    ensures Contains(s + t, w)
  {
    var p: nat :| p <= |s| - |w| && OccursAt(s, w, p);
    assert (s + t)[p..p + |w|] == s[p..p + |w|];
    ContainsAt(s + t, w, p);
  }

  /** The appended text occurs in the result. */
  lemma ContainsSuffix(s: string, t: string)
    ensures Contains(s + t, t)
  {
    assert (s + t)[|s|..|s| + |t|] == t;
    ContainsAt(s + t, t, |s|);
  }

  lemma ConcatAssoc(a: string, b: string, c: string)
    ensures a + (b + c) == (a + b) + c
  {
  }

  /** Reference semantics of replacing every occurrence of `pat` by `rep`,
      scanning left to right and resuming after each replaced occurrence. */
  function ReplaceAll(s: string, pat: string, rep: string): string
    requires |pat| > 0
    decreases |s|
  {
    if |s| < |pat| then s
    else if s[..|pat|] == pat then rep + ReplaceAll(s[|pat|..], pat, rep)
    else [s[0]] + ReplaceAll(s[1..], pat, rep)
  }

  /** With no occurrence before `q`, the first `q` characters pass through. */
  lemma {:induction false} ReplaceAllSkip(s: string, pat: string, rep: string, q: nat)
    requires |pat| > 0 && q <= |s|
    requires forall k :: 0 <= k < q ==> !OccursAt(s, pat, k)
    ensures ReplaceAll(s, pat, rep) == s[..q] + ReplaceAll(s[q..], pat, rep)
  {
    if q > 0 {
      assert !OccursAt(s, pat, 0);
      if |s| < |pat| {
        assert s[..q] + s[q..] == s;
        assert |s[q..]| < |pat|;
      } else {
        assert s[..|pat|] != pat;
        var t := s[1..];
        forall k | 0 <= k < q - 1
          ensures !OccursAt(t, pat, k)
        {
          SuffixOccurs(s, pat, 1, k);
        }
        ReplaceAllSkip(t, pat, rep, q - 1);
        assert t[q - 1..] == s[q..];
        assert [s[0]] + t[..q - 1] == s[..q];
        ConcatAssoc([s[0]], t[..q - 1], ReplaceAll(s[q..], pat, rep));
      }
    }
  }

  /** Shifting an occurrence into a suffix. */
  lemma SuffixOccurs(s: string, pat: string, pos: nat, k: nat)
    requires pos <= |s|
    ensures OccursAt(s[pos..], pat, k) <==> OccursAt(s, pat, pos + k)
  {
    if k + |pat| <= |s[pos..]| {
      assert s[pos..][k..k + |pat|] == s[pos + k..pos + k + |pat|];
    }
  }

  /** The next occurrence after `pos` is at `q`: everything before it passes
      through and the occurrence itself is replaced. */
  lemma ReplaceStep(s: string, pat: string, rep: string, pos: nat, q: nat)
    requires |pat| > 0 && pos <= q && OccursAt(s, pat, q)
    requires forall k :: pos <= k < q ==> !OccursAt(s, pat, k)
    ensures ReplaceAll(s[pos..], pat, rep) == s[pos..q] + rep + ReplaceAll(s[q + |pat|..], pat, rep)
  {
    var rest := s[pos..];
    var d := q - pos;
    forall k | 0 <= k < d
      ensures !OccursAt(rest, pat, k)
    {
      SuffixOccurs(s, pat, pos, k);
    }
    ReplaceAllSkip(rest, pat, rep, d);
    var t := s[q..];
    assert rest[d..] == t;
    assert rest[..d] == s[pos..q];
    ReplaceAtOccurrence(t, pat, rep);
    assert t[|pat|..] == s[q + |pat|..];
    ConcatAssoc(s[pos..q], rep, ReplaceAll(s[q + |pat|..], pat, rep));
  }

  lemma ReplaceAtOccurrence(t: string, pat: string, rep: string)
    requires |pat| > 0 && OccursAt(t, pat, 0)
    ensures ReplaceAll(t, pat, rep) == rep + ReplaceAll(t[|pat|..], pat, rep)
  {
    assert t[..|pat|] == pat;
  }

  /** No occurrence at or after `pos`: the suffix passes through unchanged. */
  lemma ReplaceRest(s: string, pat: string, rep: string, pos: nat)
    requires |pat| > 0 && pos <= |s|
    requires forall k :: pos <= k ==> !OccursAt(s, pat, k)
    ensures ReplaceAll(s[pos..], pat, rep) == s[pos..]
  {
    var rest := s[pos..];
    forall k | 0 <= k < |rest|
      ensures !OccursAt(rest, pat, k)
    {
      SuffixOccurs(s, pat, pos, k);
    }
    ReplaceAllSkip(rest, pat, rep, |rest|);
    assert rest[..|rest|] == rest;
    assert rest[|rest|..] == "";
  }

  /** The loop of `replace_all_distinct`: each round finds the next
      occurrence at or after `pos`, splices in the replacement and resumes
      after it, so a replacement containing the pattern is never rescanned. */
  method ReplaceAllDistinct(str: string, pat: string, rep: string) returns (out: string)
    requires |pat| > 0
    ensures out == ReplaceAll(str, pat, rep)
  {
    out := str;
    var pos: nat := 0;
    while true
      invariant pos <= |out|
      invariant ReplaceAll(str, pat, rep) == out[..pos] + ReplaceAll(out[pos..], pat, rep)
      decreases |out| - pos
    {
      var f := Find(out, pat, pos);
      if f.None? {
        ReplaceRest(out, pat, rep, pos);
        assert out[..pos] + out[pos..] == out;
        return;
      }
      var q := f.value;
      SpliceStep(out, pat, rep, pos, q);
      out := out[..q] + rep + out[q + |pat|..];
      pos := q + |rep|;
    }
  }

  /** One round of the loop keeps the replaced prefix and the pending suffix
      in step with the reference semantics. */
  lemma SpliceStep(s: string, pat: string, rep: string, pos: nat, q: nat)
    requires |pat| > 0 && pos <= q && OccursAt(s, pat, q)
    requires forall k :: pos <= k < q ==> !OccursAt(s, pat, k)
    ensures var s' := s[..q] + rep + s[q + |pat|..];
      q + |rep| <= |s'| &&
      s[..pos] + ReplaceAll(s[pos..], pat, rep) == s'[..q + |rep|] + ReplaceAll(s'[q + |rep|..], pat, rep)
  {
    ReplaceStep(s, pat, rep, pos, q);
    var head := s[..q] + rep;
    var rest := s[q + |pat|..];
    ConcatSlices(head, rest);
    assert s[..q] == s[..pos] + s[pos..q];
    ConcatRegroup(s[..pos], s[pos..q], rep, ReplaceAll(rest, pat, rep));
  }

  lemma ConcatSlices(x: string, y: string)
    ensures (x + y)[..|x|] == x && (x + y)[|x|..] == y
  {
  }

  lemma ConcatRegroup(a: string, b: string, c: string, d: string)
    ensures a + (b + c + d) == (a + b + c) + d
  {
  }

  /** Doubling every single quote, character by character. */
  function EscapeQuotes(s: string): string
  {
    if |s| == 0 then ""
    else (if s[0] == '\'' then "''" else [s[0]]) + EscapeQuotes(s[1..])
  }

  /** The escape the recorder applies: `replace_all_distinct(s, "'", "''")`. */
  function Escape(s: string): string
  {
    ReplaceAll(s, "'", "''")
  }

  /** What the store reads back from a quoted literal: `''` collapses to `'`. */
  function Unescape(s: string): string
  {
    ReplaceAll(s, "''", "'")
  }

  /** Number of occurrences of the character `c`. */
  function CountChar(s: string, c: char): nat
  {
    if |s| == 0 then 0 else (if s[0] == c then 1 else 0) + CountChar(s[1..], c)
  }

  /** Replacing single quotes is the same as doubling them one by one. */
  lemma {:induction false} EscapeIsDoubling(s: string)
    ensures Escape(s) == EscapeQuotes(s)
  {
    if |s| > 0 {
      EscapeIsDoubling(s[1..]);
    }
  }

  lemma {:induction false} EscapeQuotesAppend(a: string, b: string)
    ensures EscapeQuotes(a + b) == EscapeQuotes(a) + EscapeQuotes(b)
  {
    if |a| > 0 {
      assert (a + b)[0] == a[0];
      assert (a + b)[1..] == a[1..] + b;
      EscapeQuotesAppend(a[1..], b);
    } else {
      assert a + b == b;
    }
  }

  lemma {:induction false} EscapeQuotesFree(s: string)
    requires '\'' !in s
    ensures EscapeQuotes(s) == s
  {
    if |s| > 0 {
      assert s[1..] == s[1..];
      assert forall k :: 0 <= k < |s[1..]| ==> s[1..][k] == s[k + 1];
      EscapeQuotesFree(s[1..]);
    }
  }

  lemma {:induction false} EscapeQuotesEmpty(s: string)
    ensures EscapeQuotes(s) == "" <==> s == ""
  {
  }

  /** The escaped text has exactly twice as many quotes as the input. */
  lemma {:induction false} EscapeDoublesQuotes(s: string)
    ensures CountChar(Escape(s), '\'') == 2 * CountChar(s, '\'')
  {
    EscapeIsDoubling(s);
    DoublingCount(s);
  }

  lemma {:induction false} DoublingCount(s: string)
    ensures CountChar(EscapeQuotes(s), '\'') == 2 * CountChar(s, '\'')
  {
    if |s| > 0 {
      DoublingCount(s[1..]);
      var head := if s[0] == '\'' then "''" else [s[0]];
      CountCharAppend(head, EscapeQuotes(s[1..]), '\'');
    }
  }

  lemma {:induction false} CountCharAppend(a: string, b: string, c: char)
    ensures CountChar(a + b, c) == CountChar(a, c) + CountChar(b, c)
  {
    if |a| > 0 {
      assert (a + b)[0] == a[0];
      assert (a + b)[1..] == a[1..] + b;
      CountCharAppend(a[1..], b, c);
    } else {
      assert a + b == b;
    }
  }

  /** Collapsing doubled quotes gives back the original text. */
  lemma {:induction false} UnescapeEscape(s: string)
    ensures Unescape(Escape(s)) == s
  {
    EscapeIsDoubling(s);
    CollapseDoubling(s);
  }

  lemma {:induction false} CollapseDoubling(s: string)
    ensures ReplaceAll(EscapeQuotes(s), "''", "'") == s
  {
    if |s| > 0 {
      CollapseDoubling(s[1..]);
      var e := EscapeQuotes(s);
      var tail := EscapeQuotes(s[1..]);
      if s[0] == '\'' {
        assert e == "''" + tail;
        assert e[..2] == "''" && e[2..] == tail;
      } else {
        assert e == [s[0]] + tail;
        if |e| >= 2 {
          assert e[0] == s[0];
          assert e[..2] != "''";
          assert e[1..] == tail;
        }
      }
    }
  }
}
