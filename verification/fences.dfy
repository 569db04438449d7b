/**
 * Splitting the reply on fenced code regions: `re.split(r'```(.*?)```', text,
 * flags=re.DOTALL)`. The regular expression is replaced by a scanner built on
 * `IndexOf`: the leftmost fence opens a region and the next fence at or after
 * its end closes it. Parts at even indices are plain text and parts at odd
 * indices are the contents of the regions.
 */
module Fences {
  import opened Wrappers
  import opened Text

  const Fence: string := "```"

  /**
   * `re.split` with the lazy fence pattern. When the first fence has no
   * closing fence after it, no later fence can have one either, so the rest
   * of the text is a single plain part.
   */
  function SplitFences(s: string): (parts: seq<string>)
    ensures |parts| % 2 == 1
    decreases |s|
  {
    match IndexOf(s, Fence)
    case None => [s]
    case Some(i) =>
      var body := s[i + |Fence|..];
      match IndexOf(body, Fence)
      case None => [s]
      case Some(j) => [s[..i], body[..j]] + SplitFences(body[j + |Fence|..])
  }

  /** Puts the fences back between the parts. */
  function Unsplit(parts: seq<string>): string
    requires |parts| % 2 == 1
  {
    if |parts| == 1 then parts[0] else parts[0] + Fence + parts[1] + Fence + Unsplit(parts[2..])
  }

  /**
   * No fence starts inside `t`, not even one that runs on into a fence
   * following it: `t` runs up to the first fence.
   */
  predicate EndsAtFirstFence(t: string) {
    forall k :: 0 <= k < |t| ==> !OccursAt(t + Fence, Fence, k)
  }

  /** `t` holds an opening fence and, after it, a closing one. */
  ghost predicate HasFencePair(t: string) {
    exists p, q :: OccursAt(t, Fence, p) && p + |Fence| <= q && OccursAt(t, Fence, q)
  }

  /** The part before the first fence runs up to it. */
  lemma PrefixBeforeFirst(s: string, i: nat)
    requires IndexOf(s, Fence) == Some(i)
    ensures EndsAtFirstFence(s[..i])
  {
    var t := s[..i] + Fence;
    assert t == s[..i + |Fence|];
    forall k | 0 <= k < i ensures !OccursAt(t, Fence, k) {
      OccursAtPrefix(s, i + |Fence|, Fence, k);
    }
  }

  /** The two parts of the leftmost fenced region, and the text after it. */
  lemma SplitFencesStep(s: string, i: nat, j: nat)
    requires IndexOf(s, Fence) == Some(i) && IndexOf(s[i + |Fence|..], Fence) == Some(j)
    ensures SplitFences(s) == [s[..i], s[i + |Fence|..][..j]] + SplitFences(s[i + |Fence|..][j + |Fence|..])
  {
  }

  lemma FencedRegionSplits(s: string, i: nat, j: nat)
    requires OccursAt(s, Fence, i) && OccursAt(s[i + |Fence|..], Fence, j)
    ensures s == s[..i] + Fence + s[i + |Fence|..][..j] + Fence + s[i + |Fence|..][j + |Fence|..]
  {
    var body := s[i + |Fence|..];
    assert body == body[..j] + body[j..j + |Fence|] + body[j + |Fence|..];
    assert s == s[..i] + s[i..i + |Fence|] + body;
  }

  lemma UnsplitCons(a: string, b: string, rest: seq<string>)
    requires |rest| % 2 == 1
    ensures Unsplit([a, b] + rest) == a + Fence + b + Fence + Unsplit(rest)
  {
    assert ([a, b] + rest)[2..] == rest;
  }

  /** Splitting and putting the fences back gives the text that was split. */
  lemma {:induction false} SplitFencesRoundTrip(s: string)
    ensures Unsplit(SplitFences(s)) == s
    decreases |s|
  {
    var first := IndexOf(s, Fence);
    if first.Some? {
      var i := first.value;
      var second := IndexOf(s[i + |Fence|..], Fence);
      if second.Some? {
        var j := second.value;
        var rest := s[i + |Fence|..][j + |Fence|..];
        SplitFencesStep(s, i, j);
        FencedRegionSplits(s, i, j);
        SplitFencesRoundTrip(rest);
        UnsplitCons(s[..i], s[i + |Fence|..][..j], SplitFences(rest));
      }
    }
  }

  /**
   * Every part but the last runs up to the first fence after where it starts:
   * a plain part up to the opening fence, a code part up to the nearest
   * closing fence.
   */
  predicate PartsEndAtFirstFence(parts: seq<string>) {
    forall k :: 0 <= k < |parts| - 1 ==> EndsAtFirstFence(parts[k])
  }

  lemma PartsEndAtFirstFenceCons(a: string, b: string, rest: seq<string>)
    requires rest != []
    requires EndsAtFirstFence(a) && EndsAtFirstFence(b) && PartsEndAtFirstFence(rest)
    ensures PartsEndAtFirstFence([a, b] + rest)
  {
    var parts := [a, b] + rest;
    forall k | 0 <= k < |parts| - 1 ensures EndsAtFirstFence(parts[k]) {
      if k >= 2 {
        assert parts[k] == rest[k - 2];
      }
    }
  }

  lemma {:induction false} SplitFencesUpToFirst(s: string)
    ensures PartsEndAtFirstFence(SplitFences(s))
    decreases |s|
  {
    var first := IndexOf(s, Fence);
    if first.Some? {
      var i := first.value;
      var body := s[i + |Fence|..];
      var second := IndexOf(body, Fence);
      if second.Some? {
        var j := second.value;
        var rest := body[j + |Fence|..];
        SplitFencesStep(s, i, j);
        SplitFencesUpToFirst(rest);
        PrefixBeforeFirst(s, i);
        PrefixBeforeFirst(body, j);
        PartsEndAtFirstFenceCons(s[..i], body[..j], SplitFences(rest));
      }
    }
  }

  /** The last part holds no fence pair: a trailing unmatched fence stays in the plain text. */
  lemma {:induction false} SplitFencesLast(s: string)
    ensures !HasFencePair(SplitFences(s)[|SplitFences(s)| - 1])
    decreases |s|
  {
    match IndexOf(s, Fence)
    case None =>
    case Some(i) =>
      var body := s[i + |Fence|..];
      match IndexOf(body, Fence)
      case None =>
        UnclosedHasNoPair(s, i);
      case Some(j) =>
        var rest := body[j + |Fence|..];
        SplitFencesStep(s, i, j);
        SplitFencesLast(rest);
        LastOfCons(s[..i], body[..j], SplitFences(rest));
  }

  /** When the first fence is never closed, the text holds no fence pair at all. */
  lemma UnclosedHasNoPair(s: string, i: nat)
    requires IndexOf(s, Fence) == Some(i) && IndexOf(s[i + |Fence|..], Fence).None?
    ensures !HasFencePair(s)
  {
    forall q | q >= i + |Fence| ensures !OccursAt(s, Fence, q) {
      OccursAtSuffix(s, i + |Fence|, Fence, q - i - |Fence|);
    }
  }

  lemma LastOfCons(a: string, b: string, rest: seq<string>)
    requires rest != []
    ensures ([a, b] + rest)[|[a, b] + rest| - 1] == rest[|rest| - 1]
  {
  }

  /** Text without a fence pair is one plain part. */
  lemma NoPairOnePart(s: string)
    requires !HasFencePair(s)
    ensures SplitFences(s) == [s]
  {
    match IndexOf(s, Fence)
    case None =>
    case Some(i) =>
      var body := s[i + |Fence|..];
      forall j ensures !OccursAt(body, Fence, j) {
        OccursAtSuffix(s, i + |Fence|, Fence, j);
      }
  }
}
