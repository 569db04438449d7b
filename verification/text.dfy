/**
 * The Python string operations the formatter and the tools rely on:
 * `str.strip()`, `str.split(sep)` with the first-occurrence search it makes,
 * `sep.join(...)`, `''.join(...)`, `str.replace('\n', '<br>')` and `str(n)`
 * for a natural number.
 */
module Text {
  import opened Wrappers

  /**
   * The characters for which Python's `str.isspace()` holds, which are the
   * ones `str.strip()` removes: tab through carriage return, the four
   * information separators 0x1C-0x1F, space, NEL, no-break space, and the
   * Unicode space separators and line/paragraph separators.
   */
  predicate IsSpace(c: char) {
    SpaceCode(c as int)
  }

  predicate SpaceCode(n: int) {
    if n <= 0x20 then 0x09 <= n <= 0x0D || 0x1C <= n
    else if n < 0x1680 then n == 0x85 || n == 0xA0
    else n == 0x1680 || 0x2000 <= n <= 0x200A || n == 0x2028 || n == 0x2029
         || n == 0x202F || n == 0x205F || n == 0x3000
  }

  predicate AllSpace(s: string) {
    forall k :: 0 <= k < |s| ==> IsSpace(s[k])
  }

  /** How many whitespace characters `s.lstrip()` drops from the front of `s`. */
  function LeadingSpace(s: string): (n: nat)
    ensures n <= |s| && AllSpace(s[..n])
    ensures n < |s| ==> !IsSpace(s[n])
  {
    if s != [] && IsSpace(s[0]) then
      var n := 1 + LeadingSpace(s[1..]);
      assert s[..n] == [s[0]] + s[1..][..n - 1];
      n
    else 0
  }

  /** How many whitespace characters `s.rstrip()` drops from the end of `s`. */
  function TrailingSpace(s: string): (n: nat)
    ensures n <= |s| && forall k :: |s| - n <= k < |s| ==> IsSpace(s[k])
    ensures n < |s| ==> !IsSpace(s[|s| - n - 1])
  {
    if s != [] && IsSpace(s[|s| - 1]) then 1 + TrailingSpace(s[..|s| - 1]) else 0
  }

  /**
   * `s.strip()`: the one infix of `s` that neither starts nor ends with
   * whitespace and around which there is only whitespace.
   */
  function Strip(s: string): (r: string)
    ensures exists i :: 0 <= i <= |s| - |r| && r == s[i..i + |r|]
              && AllSpace(s[..i]) && AllSpace(s[i + |r|..])
    ensures r != [] ==> !IsSpace(r[0]) && !IsSpace(r[|r| - 1])
    ensures r == [] <==> AllSpace(s)
  {
    var i := LeadingSpace(s);
    var j := |s| - TrailingSpace(s[i..]);
    StripBounds(s, i, j);
    var r := s[i..j];
    assert |r| == j - i && r == s[i..i + |r|] && s[i + |r|..] == s[j..];
    r
  }

  lemma StripBounds(s: string, i: nat, j: nat)
    requires i == LeadingSpace(s) && j == |s| - TrailingSpace(s[i..])
    ensures i <= j <= |s| && AllSpace(s[..i]) && AllSpace(s[j..])
    ensures i < j ==> !IsSpace(s[i]) && !IsSpace(s[j - 1])
    ensures i == j <==> AllSpace(s)
  {
    TrailingBound(s, i, j);
    if i < j {
      NonSpaceEnds(s, i, j);
    } else {
      AllSpaceAround(s, i);
    }
  }

  lemma NonSpaceEnds(s: string, i: nat, j: nat)
    requires i == LeadingSpace(s) && j == |s| - TrailingSpace(s[i..]) && i < j
    ensures !IsSpace(s[i]) && !IsSpace(s[j - 1])
  {
    var u := s[i..];
    assert s[i] == u[0];
    assert s[j - 1] == u[|u| - TrailingSpace(u) - 1];
  }

  lemma TrailingBound(s: string, i: nat, j: nat)
    requires i <= |s| && j == |s| - TrailingSpace(s[i..])
    ensures i <= j <= |s| && AllSpace(s[j..])
  {
    var u := s[i..];
    var n := TrailingSpace(u);
    forall k | 0 <= k < |s| - j ensures IsSpace(s[j..][k]) {
      assert s[j..][k] == u[|u| - n + k];
    }
  }

  lemma AllSpaceAround(s: string, i: nat)
    requires i <= |s| && AllSpace(s[..i]) && AllSpace(s[i..])
    ensures AllSpace(s)
  {
    forall k | 0 <= k < |s| ensures IsSpace(s[k]) {
      if k < i {
        assert s[..i][k] == s[k];
      } else {
        assert s[i..][k - i] == s[k];
      }
    }
  }

  /**
   * `Strip` is determined by its characterisation: whitespace on both sides
   * of an infix whose first and last characters are not whitespace.
   */
  lemma StripExact(s: string, i: nat, j: nat)
    requires i < j <= |s| && AllSpace(s[..i]) && AllSpace(s[j..])
    requires !IsSpace(s[i]) && !IsSpace(s[j - 1])
    ensures Strip(s) == s[i..j]
  {
    LeadingSpaceExact(s, i);
    var u := s[i..];
    forall k | j - i <= k < |u| ensures IsSpace(u[k]) {
      assert u[k] == s[j..][k - (j - i)];
    }
    assert u[j - i - 1] == s[j - 1];
    TrailingSpaceExact(u, |u| - (j - i));
  }

  lemma LeadingSpaceExact(s: string, i: nat)
    requires i < |s| && AllSpace(s[..i]) && !IsSpace(s[i])
    ensures LeadingSpace(s) == i
  {
    var n := LeadingSpace(s);
    forall k | 0 <= k < i ensures IsSpace(s[k]) {
      assert s[..i][k] == s[k];
    }
  }

  lemma TrailingSpaceExact(u: string, m: nat)
    requires m < |u| && (forall k :: |u| - m <= k < |u| ==> IsSpace(u[k])) && !IsSpace(u[|u| - m - 1])
    ensures TrailingSpace(u) == m
  {
  }

  /** `pat` occurs in `s` starting at index `k`. */
  predicate OccursAt(s: string, pat: string, k: int) {
    0 <= k && k + |pat| <= |s| && s[k..k + |pat|] == pat
  }

  /** A one-character pattern occurs exactly where that character is. */
  lemma OccursAtChar(s: string, pat: string)
    requires |pat| == 1
    ensures forall k :: OccursAt(s, pat, k) <==> 0 <= k < |s| && s[k] == pat[0]
  {
    forall k | 0 <= k < |s| ensures OccursAt(s, pat, k) <==> s[k] == pat[0] {
      assert s[k..k + 1] == [s[k]];
    }
  }

  /** The same, at one index. */
  lemma OccursAtCharAt(s: string, pat: string, k: nat)
    requires |pat| == 1 && k < |s|
    ensures OccursAt(s, pat, k) <==> s[k] == pat[0]
  {
    assert s[k..k + 1] == [s[k]];
  }

  lemma OccursAtTail(s: string, pat: string, k: nat)
    requires s != []
    ensures OccursAt(s[1..], pat, k) <==> OccursAt(s, pat, k + 1)
  {
    if k + 1 + |pat| <= |s| {
      assert s[1..][k..k + |pat|] == s[k + 1..k + 1 + |pat|];
    }
  }

  /** The first index at which `pat` occurs in `s`, if any: where `split` makes its next cut. */
  function IndexOf(s: string, pat: string): (r: Option<nat>)
    requires pat != []
    ensures r.Some? ==> OccursAt(s, pat, r.value)
    ensures r.Some? ==> forall k :: 0 <= k < r.value ==> !OccursAt(s, pat, k)
    ensures r.None? ==> forall k :: !OccursAt(s, pat, k)
    decreases |s|
  {
    if |s| < |pat| then None
    else if s[..|pat|] == pat then Some(0)
    else
      var r := IndexOf(s[1..], pat);
      assert forall j :: 1 <= j ==> (OccursAt(s, pat, j) <==> OccursAt(s[1..], pat, j - 1)) by {
        forall j | 1 <= j ensures OccursAt(s, pat, j) <==> OccursAt(s[1..], pat, j - 1) {
          OccursAtTail(s, pat, j - 1);
        }
      }
      assert !OccursAt(s, pat, 0);
      match r
      case None => None
      case Some(k) => Some(k + 1)
  }

  /** An occurrence with none before it is the one `IndexOf` finds. */
  lemma IndexOfExact(s: string, pat: string, k: nat)
    requires pat != [] && OccursAt(s, pat, k)
    requires forall j :: 0 <= j < k ==> !OccursAt(s, pat, j)
    ensures IndexOf(s, pat) == Some(k)
  {
  }

  lemma SliceOfSlice(s: string, a: nat, b: nat, i: nat, j: nat)
    requires a <= b <= |s| && i <= j <= b - a
    ensures s[a..b][i..j] == s[a + i..a + j]
  {
    assert forall k | 0 <= k < j - i :: s[a..b][i..j][k] == s[a + i..a + j][k];
  }

  /** An occurrence inside a prefix is an occurrence in the whole string. */
  lemma OccursAtPrefix(s: string, n: nat, pat: string, k: int)
    requires n <= |s|
    ensures OccursAt(s[..n], pat, k) ==> OccursAt(s, pat, k)
  {
    if OccursAt(s[..n], pat, k) {
      assert s[..n][k..k + |pat|] == s[k..k + |pat|];
    }
  }

  /** An occurrence inside a suffix is an occurrence in the whole string. */
  lemma OccursAtSuffix(s: string, n: nat, pat: string, k: int)
    requires n <= |s|
    ensures OccursAt(s[n..], pat, k) <==> k >= 0 && OccursAt(s, pat, n + k)
  {
    if 0 <= k && k + |pat| <= |s| - n {
      assert s[n..][k..k + |pat|] == s[n + k..n + k + |pat|];
    }
  }

  /** `s.split(sep)`: the pieces between the left-to-right, non-overlapping occurrences of `sep`. */
  function SplitOn(s: string, sep: string): (parts: seq<string>)
    requires sep != []
    ensures |parts| >= 1
    decreases |s|
  {
    match IndexOf(s, sep)
    case None => [s]
    case Some(k) => [s[..k]] + SplitOn(s[k + |sep|..], sep)
  }

  /**
   * `split` cuts at the leftmost occurrence first: `s` stays whole when `sep`
   * does not occur in it, and when the first occurrence is at `i` the first
   * piece is what comes before it and the other pieces are the split of what
   * follows it. For a separator that overlaps itself, such as `"\n\n"`, this
   * is what fixes which occurrences are cut at.
   */
  lemma SplitOnLeftmost(s: string, sep: string, i: nat)
    requires sep != []
    ensures (forall k :: !OccursAt(s, sep, k)) ==> SplitOn(s, sep) == [s]
    ensures OccursAt(s, sep, i) && (forall k :: 0 <= k < i ==> !OccursAt(s, sep, k)) ==>
      SplitOn(s, sep) == [s[..i]] + SplitOn(s[i + |sep|..], sep)
  {
    if forall k :: !OccursAt(s, sep, k) {
      SplitOnWhole(s, sep);
    }
    if OccursAt(s, sep, i) && forall k :: 0 <= k < i ==> !OccursAt(s, sep, k) {
      IndexOfExact(s, sep, i);
      SplitOnAt(s, sep, i);
    }
  }

  lemma SplitOnWhole(s: string, sep: string)
    requires sep != [] && forall k :: !OccursAt(s, sep, k)
    ensures SplitOn(s, sep) == [s]
  {
    assert IndexOf(s, sep).None?;
  }

  lemma SplitOnAt(s: string, sep: string, i: nat)
    requires sep != [] && IndexOf(s, sep) == Some(i)
    ensures SplitOn(s, sep) == [s[..i]] + SplitOn(s[i + |sep|..], sep)
  {
  }

  /** The three line breaks of `"\n\n\n"` split on a blank line as Python splits them: `['', '\n']`. */
  lemma SplitOnOverlapping(s: string)
    requires s == "\n\n\n"
    ensures SplitOn(s, "\n\n") == ["", "\n"]
  {
    assert OccursAt(s, "\n\n", 0);
    assert IndexOf(s, "\n\n") == Some(0);
    var rest := s[2..];
    assert rest == "\n";
    assert IndexOf(rest, "\n\n").None?;
  }

  /** `sep.join(parts)`. */
  function Join(parts: seq<string>, sep: string): string {
    if |parts| == 0 then ""
    else if |parts| == 1 then parts[0]
    else parts[0] + sep + Join(parts[1..], sep)
  }

  /** `''.join(parts)`. */
  function Concat(parts: seq<string>): string {
    if parts == [] then "" else parts[0] + Concat(parts[1..])
  }

  lemma {:induction false} ConcatAppend(parts: seq<string>, more: seq<string>)
    ensures Concat(parts + more) == Concat(parts) + Concat(more)
  {
    if parts == [] {
      assert parts + more == more;
    } else {
      assert (parts + more)[1..] == parts[1..] + more;
      ConcatAppend(parts[1..], more);
    }
  }

  /** Splitting and joining again with the same separator gives back the input. */
  lemma {:induction false} SplitOnJoin(s: string, sep: string)
    requires sep != []
    ensures Join(SplitOn(s, sep), sep) == s
    decreases |s|
  {
    match IndexOf(s, sep)
    case None =>
    case Some(k) =>
      var rest := s[k + |sep|..];
      SplitOnJoin(rest, sep);
      JoinCons(s[..k], SplitOn(rest, sep), sep);
      SplitAround(s, sep, k);
  }

  lemma JoinCons(p: string, rest: seq<string>, sep: string)
    requires rest != []
    ensures Join([p] + rest, sep) == p + sep + Join(rest, sep)
  {
    assert ([p] + rest)[1..] == rest;
  }

  /** An occurrence of `sep` cuts `s` into what comes before it, itself and what comes after it. */
  lemma SplitAround(s: string, sep: string, k: nat)
    requires OccursAt(s, sep, k)
    ensures s == s[..k] + sep + s[k + |sep|..]
  {
    assert s[k..k + |sep|] == sep;
    assert s == s[..k] + s[k..k + |sep|] + s[k + |sep|..];
  }

  /** No piece of `s.split(sep)` contains `sep`. */
  lemma {:induction false} SplitOnPieces(s: string, sep: string)
    requires sep != []
    ensures forall i :: 0 <= i < |SplitOn(s, sep)| ==> IndexOf(SplitOn(s, sep)[i], sep).None?
    decreases |s|
  {
    match IndexOf(s, sep)
    case None =>
    case Some(k) =>
      var rest := s[k + |sep|..];
      SplitOnPieces(rest, sep);
      forall j ensures !OccursAt(s[..k], sep, j) {
        OccursAtPrefix(s, k, sep, j);
      }
      assert IndexOf(s[..k], sep).None?;
      var parts := SplitOn(s, sep);
      assert parts == [s[..k]] + SplitOn(rest, sep);
  }

  /** `s.replace('\n', '<br>')`. */
  function BreakLines(s: string): (r: string)
    ensures '\n' !in r
    ensures '\n' !in s ==> r == s
  {
    if s == [] then []
    else (if s[0] == '\n' then "<br>" else [s[0]]) + BreakLines(s[1..])
  }

  /**
   * Joining with a one-character separator that occurs in no part and
   * splitting on it again gives the parts back.
   */
  lemma {:induction false} JoinSplitOn(parts: seq<string>, sep: string)
    requires |parts| >= 1 && |sep| == 1
    requires forall i :: 0 <= i < |parts| ==> sep[0] !in parts[i]
    ensures SplitOn(Join(parts, sep), sep) == parts
    decreases |parts|
  {
    var p := parts[0];
    OccursAtChar(p, sep);
    if |parts| == 1 {
      assert IndexOf(p, sep).None?;
    } else {
      var rest := Join(parts[1..], sep);
      var s := p + sep + rest;
      OccursAtChar(s, sep);
      forall k | 0 <= k < |p| ensures !OccursAt(s, sep, k) {
        assert s[k] == p[k];
      }
      IndexOfExact(s, sep, |p|);
      assert s[..|p|] == p && s[|p| + 1..] == rest;
      JoinSplitOn(parts[1..], sep);
    }
  }

  /** The replacement works character by character, so it distributes over concatenation. */
  lemma {:induction false} BreakLinesAppend(a: string, b: string)
    ensures BreakLines(a + b) == BreakLines(a) + BreakLines(b)
    decreases |a|
  {
    if a != [] {
      var head := if a[0] == '\n' then "<br>" else [a[0]];
      assert (a + b)[0] == a[0] && (a + b)[1..] == a[1..] + b;
      calc {
        BreakLines(a + b);
        head + BreakLines(a[1..] + b);
        { BreakLinesAppend(a[1..], b); }
        head + (BreakLines(a[1..]) + BreakLines(b));
        (head + BreakLines(a[1..])) + BreakLines(b);
      }
    } else {
      assert a + b == b;
    }
  }

  lemma SplitOnNewlineCons(c: char, t: string)
    requires c != '\n'
    ensures SplitOn([c] + t, "\n") == [[c] + SplitOn(t, "\n")[0]] + SplitOn(t, "\n")[1..]
  {
    var s := [c] + t;
    assert s[1..] == t;
    assert !OccursAt(s, "\n", 0);
    forall j | 1 <= j ensures OccursAt(s, "\n", j) <==> OccursAt(t, "\n", j - 1) {
      OccursAtTail(s, "\n", j - 1);
    }
    match IndexOf(t, "\n")
    case None =>
      assert forall k :: !OccursAt(s, "\n", k);
    case Some(k) =>
      assert IndexOf(s, "\n") == Some(k + 1);
      assert s[..k + 1] == [c] + t[..k];
      assert s[k + 2..] == t[k + 1..];
  }

  lemma JoinConsChar(c: char, x: string, rest: seq<string>, sep: string)
    ensures Join([[c] + x] + rest, sep) == [c] + Join([x] + rest, sep)
  {
    if rest != [] {
      assert ([[c] + x] + rest)[1..] == rest;
      assert ([x] + rest)[1..] == rest;
    }
  }

  /**
   * Python replaces the non-overlapping occurrences of the old text from left
   * to right; for a one-character pattern that is splitting on it and joining
   * with the replacement.
   */
  lemma {:induction false} BreakLinesIsSplitJoin(s: string)
    ensures BreakLines(s) == Join(SplitOn(s, "\n"), "<br>")
  {
    if s == [] {
      assert SplitOn(s, "\n") == [s];
    } else if s[0] == '\n' {
      assert OccursAt(s, "\n", 0);
      var rest := SplitOn(s[1..], "\n");
      assert SplitOn(s, "\n") == [""] + rest;
      assert ([""] + rest)[1..] == rest;
      assert Join([""] + rest, "<br>") == "<br>" + Join(rest, "<br>");
      BreakLinesIsSplitJoin(s[1..]);
    } else {
      var t := s[1..];
      assert s == [s[0]] + t;
      SplitOnNewlineCons(s[0], t);
      var parts := SplitOn(t, "\n");
      assert parts == [parts[0]] + parts[1..];
      JoinConsChar(s[0], parts[0], parts[1..], "<br>");
      BreakLinesIsSplitJoin(t);
    }
  }

  /** The character Python prints for a decimal digit. */
  function DigitChar(d: nat): (c: char)
    requires d < 10
    ensures '0' <= c <= '9' && c as int - '0' as int == d
  {
    ('0' as int + d) as char
  }

  predicate AllDigits(s: string) {
    forall k :: 0 <= k < |s| ==> '0' <= s[k] <= '9'
  }

  /** `str(n)` for a natural number: its shortest decimal numeral. */
  function NatToString(n: nat): (s: string)
    ensures s != [] && AllDigits(s)
    ensures |s| > 1 ==> s[0] != '0'
  {
    if n < 10 then [DigitChar(n)] else NatToString(n / 10) + [DigitChar(n % 10)]
  }

  /** The value of a decimal numeral, the reading `int(s)` gives it. */
  function ParseNat(s: string): nat
    requires AllDigits(s)
  {
    if s == [] then 0 else 10 * ParseNat(s[..|s| - 1]) + (s[|s| - 1] as int - '0' as int)
  }

  /** The numeral Python prints for `n` reads back as `n`. */
  lemma {:induction false} ParseNatToString(n: nat)
    ensures ParseNat(NatToString(n)) == n
  {
    if n >= 10 {
      var s := NatToString(n);
      assert s[..|s| - 1] == NatToString(n / 10);
      ParseNatToString(n / 10);
    }
  }
}
