/**
 * The citation markers the agent inserts, `【N:M†source】`, and their removal
 * (`CITATION_PATTERN.sub('', text)`). The pattern is matched by a hand-written
 * scanner; `IsCitation` is the pattern stated declaratively.
 */
module Citations {
  import opened Wrappers
  import opened Text

  const Open: char := '【'
  /** What follows the second number: a dagger, the word `source`, the closing bracket. */
  const Tail: string := "†source】"

  predicate IsDigit(c: char) {
    '0' <= c <= '9'
  }

  predicate DigitsOnly(s: string) {
    forall k :: 0 <= k < |s| ==> IsDigit(s[k])
  }

  /** The length of the longest run of digits at the start of `s` (the greedy `\d+`). */
  function DigitRun(s: string): (n: nat)
    ensures n <= |s| && DigitsOnly(s[..n])
    ensures n < |s| ==> !IsDigit(s[n])
  {
    if s != [] && IsDigit(s[0]) then
      var n := 1 + DigitRun(s[1..]);
      assert s[..n] == [s[0]] + s[1..][..n - 1];
      n
    else 0
  }

  lemma DigitRunExact(s: string, m: nat)
    requires m <= |s| && DigitsOnly(s[..m]) && (m < |s| ==> !IsDigit(s[m]))
    ensures DigitRun(s) == m
  {
    var n := DigitRun(s);
    if n < m {
      DigitInRun(s, m, n);
    } else if m < n {
      DigitInRun(s, n, m);
    }
  }

  lemma DigitInRun(s: string, m: nat, k: nat)
    requires k < m <= |s| && DigitsOnly(s[..m])
    ensures IsDigit(s[k])
  {
    assert s[..m][k] == s[k];
  }

  /**
   * The pattern `【\d+:\d+†source】` as a property of a whole string: an opening
   * bracket, digits, a colon at index `p`, digits, then `Tail`.
   */
  ghost predicate IsCitation(t: string) {
    exists p :: CitationWithColonAt(t, p)
  }

  predicate CitationWithColonAt(t: string, p: int) {
    1 < p && p + 1 < |t| - |Tail| && t[0] == Open && t[p] == ':'
    && DigitsOnly(t[1..p]) && DigitsOnly(t[p + 1..|t| - |Tail|]) && t[|t| - |Tail|..] == Tail
  }

  /** The scanner: the length of the citation marker at the very start of `s`, if there is one. */
  function MatchCitation(s: string): (r: Option<nat>)
    ensures r.Some? ==> 1 <= r.value <= |s|
  {
    if s == [] || s[0] != Open then None
    else
      var a := DigitRun(s[1..]);
      if a == 0 || 1 + a >= |s| || s[1 + a] != ':' then None
      else
        var b := DigitRun(s[2 + a..]);
        var end := 2 + a + b;
        if b == 0 || end + |Tail| > |s| || s[end..end + |Tail|] != Tail then None
        else Some(end + |Tail|)
  }

  /** Every marker the scanner reports is a citation marker. */
  lemma MatchCitationSound(s: string)
    requires MatchCitation(s).Some?
    ensures IsCitation(s[..MatchCitation(s).value])
  {
    var n := MatchCitation(s).value;
    var a := DigitRun(s[1..]);
    var b := DigitRun(s[2 + a..]);
    var t := s[..n];
    var p := 1 + a;
    assert t[1..p] == s[1..][..a];
    assert t[p + 1..|t| - |Tail|] == s[2 + a..][..b];
    assert t[|t| - |Tail|..] == s[2 + a + b..2 + a + b + |Tail|];
    assert CitationWithColonAt(t, p);
  }

  /** Every citation marker at the start of `s` is found by the scanner, with its length. */
  lemma MatchCitationComplete(s: string, n: nat)
    requires n <= |s| && IsCitation(s[..n])
    ensures MatchCitation(s) == Some(n)
  {
    var t := s[..n];
    var p :| CitationWithColonAt(t, p);
    var m := n - |Tail| - p - 1;
    FirstNumber(s, n, p);
    SecondNumber(s, n, p, m);
    assert s[p + 1 + m..p + 1 + m + |Tail|] == t[|t| - |Tail|..];
    MatchCitationFound(s, p - 1, m);
  }

  lemma FirstNumber(s: string, n: nat, p: int)
    requires n <= |s| && CitationWithColonAt(s[..n], p)
    ensures s[0] == Open && DigitRun(s[1..]) == p - 1 && s[p] == ':'
  {
    var t := s[..n];
    assert s[1..][..p - 1] == t[1..p];
    assert s[1 + (p - 1)] == t[p];
    DigitRunExact(s[1..], p - 1);
  }

  lemma SecondNumber(s: string, n: nat, p: int, m: int)
    requires n <= |s| && CitationWithColonAt(s[..n], p) && m == n - |Tail| - p - 1
    ensures 0 < m && DigitRun(s[p + 1..]) == m
  {
    var t := s[..n];
    assert s[p + 1..][..m] == t[p + 1..|t| - |Tail|];
    assert s[p + 1..][m] == t[n - |Tail|] == Tail[0];
    DigitRunExact(s[p + 1..], m);
  }

  /** The scanner's accepting path, given the two digit runs. */
  lemma MatchCitationFound(s: string, a: nat, b: nat)
    requires 0 < a && 2 + a + b + |Tail| <= |s| && 0 < b
    requires s[0] == Open && DigitRun(s[1..]) == a && s[1 + a] == ':' && DigitRun(s[2 + a..]) == b
    requires s[2 + a + b..2 + a + b + |Tail|] == Tail
    ensures MatchCitation(s) == Some(2 + a + b + |Tail|)
  {
  }

  /** The scanner finds a marker of length `n` exactly when the first `n` characters form one. */
  lemma MatchCitationIff(s: string, n: nat)
    ensures MatchCitation(s) == Some(n) <==> n <= |s| && IsCitation(s[..n])
  {
    if MatchCitation(s) == Some(n) {
      MatchCitationSound(s);
    }
    if n <= |s| && IsCitation(s[..n]) {
      MatchCitationComplete(s, n);
    }
  }

  /** A marker holds its opening bracket at index 0 and nowhere else. */
  lemma CitationOpensOnce(t: string, k: int)
    requires IsCitation(t) && 0 < k < |t|
    ensures t[k] != Open
  {
    var p :| CitationWithColonAt(t, p);
    if k < p {
      assert t[1..p][k - 1] == t[k];
    } else if p < k < |t| - |Tail| {
      assert t[p + 1..|t| - |Tail|][k - p - 1] == t[k];
    } else if k >= |t| - |Tail| {
      assert Tail[k - (|t| - |Tail|)] == t[k];
    }
  }

  lemma CitationStartsWithOpen(t: string)
    ensures IsCitation(t) ==> |t| > 0 && t[0] == Open
  {
  }

  /** Text without an opening bracket holds no marker, so the substitution leaves it as it is. */
  lemma NoOpenUnchanged(s: string)
    requires Open !in s
    ensures StripCitations(s) == s
  {
    forall i, j | 0 <= i <= j <= |s| ensures !IsCitation(s[i..j]) {
      CitationStartsWithOpen(s[i..j]);
      if i < j {
        assert s[i..j][0] == s[i];
      }
    }
    StripCitationsIdentity(s);
  }

  /** Some infix of `t` is a citation marker. */
  ghost predicate ContainsCitation(t: string) {
    exists i, j :: 0 <= i <= j <= |t| && IsCitation(t[i..j])
  }

  /**
   * `CITATION_PATTERN.sub('', s)`: scanning left to right, each marker found
   * is dropped and the scan resumes after it; every other character is kept.
   */
  function StripCitations(s: string): (r: string)
    ensures |r| <= |s|
    decreases |s|
  {
    if s == [] then []
    else match MatchCitation(s)
      case Some(n) => StripCitations(s[n..])
      case None => [s[0]] + StripCitations(s[1..])
  }

  /** The kept pieces `kept` interleaved with the removed pieces `marks`. */
  function Weave(kept: seq<string>, marks: seq<string>): string
    requires |kept| == |marks| + 1
  {
    if marks == [] then kept[0] else kept[0] + marks[0] + Weave(kept[1..], marks[1..])
  }

  lemma NoCitationInEmpty()
    ensures !ContainsCitation("")
  {
  }

  /** A marker inside an infix of `s` is a marker inside `s`. */
  lemma ContainsCitationInfix(s: string, a: nat, b: nat)
    requires a <= b <= |s|
    ensures ContainsCitation(s[a..b]) ==> ContainsCitation(s)
  {
    if ContainsCitation(s[a..b]) {
      var t := s[a..b];
      var i, j :| 0 <= i <= j <= |t| && IsCitation(t[i..j]);
      SliceOfSlice(s, a, b, i, j);
    }
  }

  /** Text that holds no marker passes through unchanged. */
  lemma {:induction false} StripCitationsIdentity(s: string)
    requires !ContainsCitation(s)
    ensures StripCitations(s) == s
    decreases |s|
  {
    if s != [] {
      assert MatchCitation(s).None? by {
        forall n: nat | n <= |s| ensures MatchCitation(s) != Some(n) {
          MatchCitationIff(s, n);
          assert s[..n] == s[0..n];
        }
      }
      ContainsCitationInfix(s, 1, |s|);
      assert s[1..|s|] == s[1..];
      StripCitationsIdentity(s[1..]);
    }
  }

  /** A character the scanner cannot start a marker at, followed by marker-free text, holds no marker. */
  lemma NoCitationAfterMiss(s: string, k0: string)
    requires s != [] && MatchCitation(s).None?
    requires |k0| < |s| && s[1..1 + |k0|] == k0 && !ContainsCitation(k0)
    ensures !ContainsCitation([s[0]] + k0)
  {
    var head := [s[0]] + k0;
    forall i, j | 0 <= i <= j <= |head| ensures !IsCitation(head[i..j]) {
      if i == 0 {
        assert head[i..j] == s[..j];
        MatchCitationIff(s, j);
      } else {
        assert head[i..j] == k0[i - 1..j - 1];
      }
    }
  }

  lemma WeaveStartsWithKept(kept: seq<string>, marks: seq<string>)
    requires |kept| == |marks| + 1
    ensures |kept[0]| <= |Weave(kept, marks)| && Weave(kept, marks)[..|kept[0]|] == kept[0]
  {
  }

  ghost predicate AllCitations(marks: seq<string>) {
    forall i :: 0 <= i < |marks| ==> IsCitation(marks[i])
  }

  ghost predicate NoneHoldsCitation(kept: seq<string>) {
    forall i :: 0 <= i < |kept| ==> !ContainsCitation(kept[i])
  }

  lemma DecomposeAfterMarker(s: string, n: nat, k': seq<string>, m': seq<string>)
    requires n <= |s| && IsCitation(s[..n])
    requires |k'| == |m'| + 1 && s[n..] == Weave(k', m')
    requires AllCitations(m') && NoneHoldsCitation(k')
    ensures s == Weave([""] + k', [s[..n]] + m')
    ensures AllCitations([s[..n]] + m') && NoneHoldsCitation([""] + k')
    ensures Concat([""] + k') == Concat(k')
  {
    NoCitationInEmpty();
    var kept, marks := [""] + k', [s[..n]] + m';
    assert kept[1..] == k' && marks[1..] == m';
    assert s == "" + s[..n] + s[n..];
    forall i | 0 <= i < |kept| ensures !ContainsCitation(kept[i]) {
      if i > 0 { assert kept[i] == k'[i - 1]; }
    }
    forall i | 0 <= i < |marks| ensures IsCitation(marks[i]) {
      if i > 0 { assert marks[i] == m'[i - 1]; }
    }
  }

  lemma WeaveConsChar(c: char, kept: seq<string>, marks: seq<string>)
    requires |kept| == |marks| + 1
    ensures Weave([[c] + kept[0]] + kept[1..], marks) == [c] + Weave(kept, marks)
  {
    var kept' := [[c] + kept[0]] + kept[1..];
    assert kept'[1..] == kept[1..];
  }

  lemma ConcatConsChar(c: char, kept: seq<string>)
    requires kept != []
    ensures Concat([[c] + kept[0]] + kept[1..]) == [c] + Concat(kept)
  {
    var kept' := [[c] + kept[0]] + kept[1..];
    assert kept'[1..] == kept[1..];
  }

  /** When no marker starts at the first character, that character joins the first kept piece without forming one. */
  lemma MissKeepsHead(s: string, k': seq<string>, m': seq<string>)
    requires s != [] && MatchCitation(s).None?
    requires |k'| == |m'| + 1 && s[1..] == Weave(k', m')
    requires NoneHoldsCitation(k')
    ensures !ContainsCitation([s[0]] + k'[0])
  {
    WeaveStartsWithKept(k', m');
    NoCitationAfterMiss(s, k'[0]);
  }

  lemma DecomposeAfterMiss(s: string, k': seq<string>, m': seq<string>)
    requires s != [] && |k'| == |m'| + 1 && s[1..] == Weave(k', m')
    requires NoneHoldsCitation(k') && !ContainsCitation([s[0]] + k'[0])
    ensures s == Weave([[s[0]] + k'[0]] + k'[1..], m')
    ensures NoneHoldsCitation([[s[0]] + k'[0]] + k'[1..])
    ensures Concat([[s[0]] + k'[0]] + k'[1..]) == [s[0]] + Concat(k')
  {
    assert s == [s[0]] + s[1..];
    WeaveConsChar(s[0], k', m');
    ConcatConsChar(s[0], k');
    NoneHoldsNewHead([s[0]] + k'[0], k');
  }

  lemma NoneHoldsNewHead(x: string, k': seq<string>)
    requires k' != [] && !ContainsCitation(x) && NoneHoldsCitation(k')
    ensures NoneHoldsCitation([x] + k'[1..])
  {
    var kept := [x] + k'[1..];
    forall i | 0 <= i < |kept| ensures !ContainsCitation(kept[i]) {
      if i > 0 { assert kept[i] == k'[i]; }
    }
  }

  /**
   * What the substitution does, stated without the scanner: the input is the
   * kept text interleaved with citation markers, no kept piece holds a marker
   * (so every marker found is the leftmost one left), and the output is the
   * kept text in order.
   */
  lemma {:induction false} StripCitationsDecompose(s: string) returns (kept: seq<string>, marks: seq<string>)
    ensures |kept| == |marks| + 1 && s == Weave(kept, marks)
    ensures AllCitations(marks) && NoneHoldsCitation(kept)
    ensures StripCitations(s) == Concat(kept)
    decreases |s|
  {
    if s == [] {
      NoCitationInEmpty();
      kept, marks := [""], [];
      return;
    }
    match MatchCitation(s)
    case Some(n) =>
      MatchCitationSound(s);
      var k', m' := StripCitationsDecompose(s[n..]);
      DecomposeAfterMarker(s, n, k', m');
      kept, marks := [""] + k', [s[..n]] + m';
    case None =>
      var k', m' := StripCitationsDecompose(s[1..]);
      MissKeepsHead(s, k', m');
      DecomposeAfterMiss(s, k', m');
      kept, marks := [[s[0]] + k'[0]] + k'[1..], m';
  }

  /**
   * Every decomposition meeting those conditions gives the output of the
   * substitution, so the kept text is determined by the input: a kept piece
   * cannot end inside a marker, because a marker holds its opening bracket at
   * index 0 only.
   */
  lemma {:induction false} DecompositionUnique(s: string, kept: seq<string>, marks: seq<string>)
    requires |kept| == |marks| + 1 && s == Weave(kept, marks)
    requires AllCitations(marks) && NoneHoldsCitation(kept)
    ensures Concat(kept) == StripCitations(s)
    decreases |marks|
  {
    if marks == [] {
      StripCitationsIdentity(kept[0]);
    } else {
      var rest := Weave(kept[1..], marks[1..]);
      DecompositionTail(kept, marks);
      DecompositionUnique(rest, kept[1..], marks[1..]);
      KeptThenMarker(kept[0], marks[0], rest);
    }
  }

  lemma DecompositionTail(kept: seq<string>, marks: seq<string>)
    requires |kept| == |marks| + 1 && marks != []
    requires AllCitations(marks) && NoneHoldsCitation(kept)
    ensures AllCitations(marks[1..]) && NoneHoldsCitation(kept[1..])
    ensures IsCitation(marks[0]) && !ContainsCitation(kept[0])
  {
    forall i | 0 <= i < |kept[1..]| ensures !ContainsCitation(kept[1..][i]) {
      assert kept[1..][i] == kept[i + 1];
    }
    forall i | 0 <= i < |marks[1..]| ensures IsCitation(marks[1..][i]) {
      assert marks[1..][i] == marks[i + 1];
    }
  }

  /** Marker-free text and a marker: the text is kept and the marker dropped. */
  lemma KeptThenMarker(k: string, m: string, rest: string)
    requires !ContainsCitation(k) && IsCitation(m)
    ensures StripCitations(k + m + rest) == k + StripCitations(rest)
  {
    KeptBeforeMarker(k, m, rest);
    MarkerDropped(m, rest);
    assert k + m + rest == k + (m + rest);
  }

  /** A text with the opening bracket after its first character is no marker. */
  lemma OpenInside(t: string, k: nat)
    requires 0 < k < |t| && t[k] == Open
    ensures !IsCitation(t)
  {
    if IsCitation(t) {
      CitationOpensOnce(t, k);
    }
  }

  /** A marker at the start of the text is dropped and the scan resumes after it. */
  lemma MarkerDropped(m: string, rest: string)
    requires IsCitation(m)
    ensures StripCitations(m + rest) == StripCitations(rest)
  {
    var t := m + rest;
    assert t[..|m|] == m && t[|m|..] == rest;
    MatchCitationComplete(t, |m|);
  }

  /** Marker-free text in front of a marker is kept as it is. */
  lemma {:induction false} KeptBeforeMarker(k: string, m: string, rest: string)
    requires !ContainsCitation(k) && IsCitation(m)
    ensures StripCitations(k + (m + rest)) == k + StripCitations(m + rest)
    decreases |k|
  {
    if k != [] {
      NoMarkerAcross(k, m, rest);
      MissKeepsChar(k, m + rest);
      NoCitationInTail(k);
      KeptBeforeMarker(k[1..], m, rest);
      HeadThenTail(k, StripCitations(m + rest));
    } else {
      assert k + (m + rest) == m + rest;
    }
  }

  /** Where no marker starts, the first character is kept and the scan moves one on. */
  lemma MissKeepsChar(k: string, x: string)
    requires k != [] && MatchCitation(k + x).None?
    ensures StripCitations(k + x) == [k[0]] + StripCitations(k[1..] + x)
  {
    var t := k + x;
    assert t[0] == k[0] && t[1..] == k[1..] + x;
  }

  lemma NoCitationInTail(k: string)
    requires k != [] && !ContainsCitation(k)
    ensures !ContainsCitation(k[1..])
  {
    ContainsCitationInfix(k, 1, |k|);
    assert k[1..|k|] == k[1..];
  }

  lemma HeadThenTail(k: string, out: string)
    requires k != []
    ensures [k[0]] + (k[1..] + out) == k + out
  {
    assert k == [k[0]] + k[1..];
  }

  /** No marker starts inside marker-free text that a marker follows. */
  lemma NoMarkerAcross(k: string, m: string, rest: string)
    requires k != [] && !ContainsCitation(k) && IsCitation(m)
    ensures MatchCitation(k + (m + rest)).None?
  {
    var t := k + (m + rest);
    CitationStartsWithOpen(m);
    forall n: nat | n <= |t| ensures !IsCitation(t[..n]) {
      if n <= |k| {
        assert t[..n] == k[0..n];
      } else {
        assert t[..n][|k|] == Open;
        OpenInside(t[..n], |k|);
      }
    }
    if MatchCitation(t).Some? {
      MatchCitationSound(t);
    }
  }
}
