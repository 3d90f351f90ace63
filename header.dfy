/**
 * The header's two pieces of logic (src/components/layout/Header.tsx): the
 * avatar initials and which navigation link is highlighted.
 */
module Header {
  import opened Options
  import opened Strings

  /** A character of the class `[\s@]`. */
  predicate IsSeparator(c: char) {
    IsJsWhitespace(c) || c == '@'
  }

  predicate NoSeparator(s: string) {
    forall i :: 0 <= i < |s| ==> !IsSeparator(s[i])
  }

  /** The end of the run of separators that starts at q. */
  function RunEnd(s: string, q: nat): (e: nat)
    requires q <= |s|
    ensures q <= e <= |s|
    ensures forall i :: q <= i < e ==> IsSeparator(s[i])
    ensures e == |s| || !IsSeparator(s[e])
    decreases |s| - q
  {
    if q < |s| && IsSeparator(s[q]) then RunEnd(s, q + 1) else q
  }

  /**
   * `split(/[\s@]+/)` from scan position q, the current piece having
   * started at `start`: a maximal run of separators ends the piece; a leading
   * or trailing run yields an empty piece.
   */
  function SplitFrom(s: string, start: nat, q: nat): (pieces: seq<string>)
    requires start <= q <= |s|
    ensures |pieces| >= 1
    decreases |s| - q, 1
  {
    if q == |s| then [s[start..]]
    else if IsSeparator(s[q]) then
      var e := RunEnd(s, q + 1);
      [s[start..q]] + SplitFrom(s, e, e)
    else SplitFrom(s, start, q + 1)
  }

  function Words(s: string): seq<string> {
    SplitFrom(s, 0, 0)
  }

  predicate AllSeparators(r: string) {
    forall i :: 0 <= i < |r| ==> IsSeparator(r[i])
  }

  /** The runs of separators that `SplitFrom(s, start, q)` cuts at, in order. */
  function RunsFrom(s: string, start: nat, q: nat): seq<string>
    requires start <= q <= |s|
    decreases |s| - q
  {
    if q == |s| then []
    else if IsSeparator(s[q]) then
      var e := RunEnd(s, q + 1);
      [s[q..e]] + RunsFrom(s, e, e)
    else RunsFrom(s, start, q + 1)
  }

  function Runs(s: string): seq<string> {
    RunsFrom(s, 0, 0)
  }

  /** The pieces with the runs between them: `words[0] + runs[0] + words[1] + ...`. */
  function Interleave(words: seq<string>, runs: seq<string>): string
    requires |words| == |runs| + 1
    decreases |runs|
  {
    if runs == [] then words[0] else words[0] + runs[0] + Interleave(words[1..], runs[1..])
  }

  lemma InterleaveCons(w: string, r: string, ws: seq<string>, rs: seq<string>)
    requires |ws| == |rs| + 1
    ensures Interleave([w] + ws, [r] + rs) == w + r + Interleave(ws, rs)
  {
    assert ([w] + ws)[1..] == ws && ([r] + rs)[1..] == rs;
  }

  /**
   * The pieces of the split from q alternate with the runs and together give
   * back `s[start..]`; every run is a non-empty stretch of separators.
   */
  lemma {:induction false} SplitFromInterleaves(s: string, start: nat, q: nat)
    requires start <= q <= |s|
    ensures |SplitFrom(s, start, q)| == |RunsFrom(s, start, q)| + 1
    ensures Interleave(SplitFrom(s, start, q), RunsFrom(s, start, q)) == s[start..]
    ensures forall k :: 0 <= k < |RunsFrom(s, start, q)| ==>
              RunsFrom(s, start, q)[k] != [] && AllSeparators(RunsFrom(s, start, q)[k])
    decreases |s| - q
  {
    if q == |s| {
    } else if IsSeparator(s[q]) {
      var e := RunEnd(s, q + 1);
      var ws, rs := SplitFrom(s, e, e), RunsFrom(s, e, e);
      SplitFromInterleaves(s, e, e);
      assert SplitFrom(s, start, q) == [s[start..q]] + ws;
      assert RunsFrom(s, start, q) == [s[q..e]] + rs;
      InterleaveCons(s[start..q], s[q..e], ws, rs);
      assert s[start..] == s[start..q] + s[q..e] + s[e..];
    } else {
      SplitFromInterleaves(s, start, q + 1);
    }
  }

  /**
   * No piece of the split from q but the first and the last is empty, and
   * the first piece holds what was scanned of it already.
   */
  lemma {:induction false} SplitFromInnerNonEmpty(s: string, start: nat, q: nat)
    requires start <= q <= |s|
    ensures forall k :: 0 < k < |SplitFrom(s, start, q)| - 1 ==> SplitFrom(s, start, q)[k] != []
    ensures |SplitFrom(s, start, q)[0]| >= q - start
    decreases |s| - q
  {
    if q == |s| {
    } else if IsSeparator(s[q]) {
      var e := RunEnd(s, q + 1);
      SplitFromInnerNonEmpty(s, e, e);
      assert SplitFrom(s, start, q) == [s[start..q]] + SplitFrom(s, e, e);
      if e < |s| {
        SplitFromInnerNonEmpty(s, e, e + 1);
        assert SplitFrom(s, e, e) == SplitFrom(s, e, e + 1);
      }
    } else {
      SplitFromInnerNonEmpty(s, start, q + 1);
    }
  }

  /**
   * `split(/[\s@]+/)` in full: the words and the maximal runs of separators
   * between them rebuild the name; no word holds a separator, no run is
   * empty, and only the first and the last word can be empty.
   */
  lemma WordsInterleave(s: string)
    ensures |Words(s)| == |Runs(s)| + 1
    ensures Interleave(Words(s), Runs(s)) == s
    ensures forall k :: 0 <= k < |Words(s)| ==> NoSeparator(Words(s)[k])
    ensures forall k :: 0 <= k < |Runs(s)| ==> Runs(s)[k] != [] && AllSeparators(Runs(s)[k])
    ensures forall k :: 0 < k < |Words(s)| - 1 ==> Words(s)[k] != []
  {
    SplitFromInterleaves(s, 0, 0);
    SplitFromInnerNonEmpty(s, 0, 0);
    WordsHaveNoSeparator(s);
  }

  /** No piece holds a separator. */
  lemma {:induction false} SplitFromNoSeparator(s: string, start: nat, q: nat)
    requires start <= q <= |s|
    requires NoSeparator(s[start..q])
    ensures forall i :: 0 <= i < |SplitFrom(s, start, q)| ==> NoSeparator(SplitFrom(s, start, q)[i])
    decreases |s| - q
  {
    if q == |s| {
      assert s[start..] == s[start..q];
    } else if IsSeparator(s[q]) {
      var e := RunEnd(s, q + 1);
      SplitFromNoSeparator(s, e, e);
    } else {
      assert s[start..q + 1] == s[start..q] + [s[q]];
      SplitFromNoSeparator(s, start, q + 1);
    }
  }

  lemma WordsHaveNoSeparator(s: string)
    ensures forall i :: 0 <= i < |Words(s)| ==> NoSeparator(Words(s)[i])
  {
    SplitFromNoSeparator(s, 0, 0);
  }

  /** A string without separators is a single word. */
  lemma {:induction false} NoSeparatorOneWord(s: string, start: nat, q: nat)
    requires start <= q <= |s| && NoSeparator(s[q..])
    ensures SplitFrom(s, start, q) == [s[start..]]
    decreases |s| - q
  {
    if q < |s| {
      assert s[q..][0] == s[q];
      assert s[q + 1..] == s[q..][1..];
      NoSeparatorOneWord(s, start, q + 1);
    }
  }

  /** `.map((s) => s[0]).join("")`: the first character of each non-empty word; an empty word adds nothing. */
  function FirstChars(words: seq<string>): (r: string)
    ensures |r| <= |words|
    ensures forall c :: c in r ==> exists w :: w in words && w != [] && w[0] == c
  {
    if words == [] then ""
    else
      var rest := FirstChars(words[1..]);
      assert forall w :: w in words[1..] ==> w in words;
      (if words[0] == [] then "" else [words[0][0]]) + rest
  }

  /** The first characters of two word lists, one after the other, are those of the two lists joined. */
  lemma {:induction false} FirstCharsAppend(a: seq<string>, b: seq<string>)
    ensures FirstChars(a + b) == FirstChars(a) + FirstChars(b)
  {
    if a == [] {
      assert a + b == b;
    } else {
      assert (a + b)[0] == a[0] && (a + b)[1..] == a[1..] + b;
      FirstCharsAppend(a[1..], b);
    }
  }

  /** Without empty words, the k-th character is the first character of the k-th word. */
  lemma {:induction false} FirstCharsOfWords(words: seq<string>)
    requires forall i :: 0 <= i < |words| ==> words[i] != []
    ensures |FirstChars(words)| == |words|
    ensures forall k :: 0 <= k < |words| ==> FirstChars(words)[k] == words[k][0]
  {
    if words != [] {
      FirstCharsOfWords(words[1..]);
      assert FirstChars(words) == [words[0][0]] + FirstChars(words[1..]);
    }
  }

  /** Splitting moves over characters that are not separators without ending the piece. */
  lemma {:induction false} SkipWord(s: string, start: nat, q: nat, q2: nat)
    requires start <= q <= q2 <= |s|
    requires forall i :: q <= i < q2 ==> !IsSeparator(s[i])
    ensures SplitFrom(s, start, q) == SplitFrom(s, start, q2)
    decreases q2 - q
  {
    if q < q2 {
      SkipWord(s, start, q + 1, q2);
    }
  }

  /** A run of separators from q up to a non-separator at n ends at n. */
  lemma {:induction false} RunEndAt(s: string, q: nat, n: nat)
    requires q <= n < |s|
    requires forall i :: q <= i < n ==> IsSeparator(s[i])
    requires !IsSeparator(s[n])
    ensures RunEnd(s, q) == n
    decreases n - q
  {
    if q < n {
      RunEndAt(s, q + 1, n);
    }
  }

  /** Two words with a run of separators between them split into exactly those two words. */
  lemma TwoWords(w1: string, sep: string, w2: string)
    requires w1 != [] && w2 != [] && NoSeparator(w1) && NoSeparator(w2)
    requires sep != [] && forall i :: 0 <= i < |sep| ==> IsSeparator(sep[i])
    ensures Words(w1 + sep + w2) == [w1, w2]
  {
    var s := w1 + sep + w2;
    var m := |w1|;
    var n := |w1| + |sep|;
    assert forall i :: 0 <= i < m ==> s[i] == w1[i];
    assert forall i :: m <= i < n ==> s[i] == sep[i - m];
    assert forall i :: n <= i < |s| ==> s[i] == w2[i - n];
    SkipWord(s, 0, 0, m);
    RunEndAt(s, m + 1, n);
    assert SplitFrom(s, 0, m) == [s[0..m]] + SplitFrom(s, n, n);
    assert s[n..] == w2;
    NoSeparatorOneWord(s, n, n);
    assert s[0..m] == w1;
  }

  /** A display name of two words gives the initials of both, as far as the case mapping leaves two characters. */
  lemma TwoWordInitials(w1: string, sep: string, w2: string, email: Option<string>, upper: CaseMap)
    requires w1 != [] && w2 != [] && NoSeparator(w1) && NoSeparator(w2)
    requires sep != [] && forall i :: 0 <= i < |sep| ==> IsSeparator(sep[i])
    ensures var u := upper([w1[0], w2[0]]);
            Initials(Some(w1 + sep + w2), email, upper) == if |u| <= 2 then u else u[..2]
  {
    TwoWords(w1, sep, w2);
    FirstCharsOfWords([w1, w2]);
    assert FirstChars([w1, w2]) == [w1[0], w2[0]];
  }

  /** `displayName || email || "U"`: the first of the two that is set and non-empty. */
  function NameSource(displayName: Option<string>, email: Option<string>): (s: string)
    ensures s != ""
    ensures displayName.Some? && displayName.value != "" ==> s == displayName.value
    ensures (displayName.None? || displayName.value == "") && email.Some? && email.value != "" ==> s == email.value
    ensures (displayName.None? || displayName.value == "") && (email.None? || email.value == "") ==> s == "U"
  {
    if displayName.Some? && displayName.value != "" then displayName.value
    else if email.Some? && email.value != "" then email.value
    else "U"
  }

  /** The avatar initials: the first characters of the words, upper-cased, at most two. */
  function Initials(displayName: Option<string>, email: Option<string>, upper: CaseMap): (r: string)
    ensures |r| <= 2
    ensures var u := upper(FirstChars(Words(NameSource(displayName, email))));
            |r| == (if |u| < 2 then |u| else 2) && r == u[..|r|]
  {
    var u := upper(FirstChars(Words(NameSource(displayName, email))));
    if |u| <= 2 then u else u[..2]
  }

  /** No initial is a separator: only characters from inside words are used. */
  lemma InitialsComeFromWords(s: string)
    ensures forall c :: c in FirstChars(Words(s)) ==> !IsSeparator(c)
  {
    WordsHaveNoSeparator(s);
    var ws := Words(s);
    forall c | c in FirstChars(ws) ensures !IsSeparator(c) {
      var w :| w in ws && w != [] && w[0] == c;
      var i :| 0 <= i < |ws| && ws[i] == w;
    }
  }

  /** A single word gives its first character alone. */
  lemma OneWordInitial(s: string)
    requires s != [] && NoSeparator(s)
    ensures FirstChars(Words(s)) == [s[0]]
  {
    NoSeparatorOneWord(s, 0, 0);
    assert Words(s) == [s];
  }

  /** The navigation links, in display order. */
  const NavLinks: seq<string> := ["/dashboard", "/trips", "/countries", "/portrait"]

  /** `isActive`: the path is the link or lies below it. */
  predicate IsActive(pathname: string, href: string) {
    pathname == href || StartsWith(pathname, href + "/")
  }

  /** A link of the form "/segment": one leading "/" and none after it. */
  predicate SingleSegment(href: string) {
    |href| >= 1 && href[0] == '/' && forall i :: 1 <= i < |href| ==> href[i] != '/'
  }

  /** Two one-segment links are never active together unless they are the same link. */
  lemma ActiveIsUnique(pathname: string, a: string, b: string)
    requires SingleSegment(a) && SingleSegment(b)
    requires IsActive(pathname, a) && IsActive(pathname, b)
    ensures a == b
  {
    assert pathname[..|a|] == a by {
      if pathname != a {
        assert (a + "/")[..|a|] == a;
        assert pathname[..|a| + 1][..|a|] == pathname[..|a|];
      }
    }
    assert pathname[..|b|] == b by {
      if pathname != b {
        assert (b + "/")[..|b|] == b;
        assert pathname[..|b| + 1][..|b|] == pathname[..|b|];
      }
    }
    assert |pathname| > |a| ==> pathname[|a|] == '/' by {
      if pathname != a {
        assert pathname[..|a| + 1][|a|] == (a + "/")[|a|];
      }
    }
    assert |pathname| > |b| ==> pathname[|b|] == '/' by {
      if pathname != b {
        assert pathname[..|b| + 1][|b|] == (b + "/")[|b|];
      }
    }
    assert forall k :: 1 <= k < |a| ==> pathname[k] == a[k];
    assert forall k :: 1 <= k < |b| ==> pathname[k] == b[k];
    assert |a| == |b|;
    assert a == pathname[..|a|];
  }

  /** Every navigation link is a single segment, so at most one is highlighted. */
  lemma AtMostOneActive(pathname: string, i: nat, j: nat)
    requires i < |NavLinks| && j < |NavLinks|
    requires IsActive(pathname, NavLinks[i]) && IsActive(pathname, NavLinks[j])
    ensures i == j
  {
    assert forall k :: 0 <= k < |NavLinks| ==> SingleSegment(NavLinks[k]);
    ActiveIsUnique(pathname, NavLinks[i], NavLinks[j]);
  }

  /** A path that only shares a prefix with a link, such as "/tripsX", does not highlight it; a nested page does. */
  lemma SegmentBoundary()
    ensures !IsActive("/tripsX", "/trips")
    ensures IsActive("/trips/abc/edit", "/trips")
  {
    assert "/trips" + "/" == "/trips/";
    assert "/tripsX"[6] == 'X' && "/trips/"[6] == '/';
    assert ("/trips/abc/edit")[..7] == "/trips/";
  }
}
