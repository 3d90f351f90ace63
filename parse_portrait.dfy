/**
 * Splitting the language model's reply into the four portrait sections
 * (src/lib/ai/parse-portrait.ts). A header is "## " at the start of a line;
 * a section is the first non-empty piece whose lower-cased text starts with
 * the lower-cased section name, with its first line dropped and the rest
 * trimmed. A missing section is the empty string; the reply is kept whole
 * as `raw`.
 */
module ParsePortrait {
  import opened Options
  import opened Strings

  datatype Portrait = Portrait(archetype: string, analysis: string, insight: string,
                               recommendation: string, raw: string)

  const Marker: string := "## "

  const ArchetypeName: string := "Архетип"
  const AnalysisName: string := "Анализ"
  const InsightName: string := "Инсайт"
  const RecommendationName: string := "Рекомендация"

  /** The multiline pattern `^## ` matches at q: "## " at the start of the text or right after a line terminator. */
  predicate HeaderAt(s: string, q: nat) {
    q + 3 <= |s| && s[q..q + 3] == Marker && (q == 0 || IsLineTerminator(s[q - 1]))
  }

  /**
   * `split(/^## /m)` from scan position q, the current piece having started
   * at `start`: every header match ends the current piece, and the
   * characters of the match belong to no piece.
   */
  function SplitFrom(s: string, start: nat, q: nat): (pieces: seq<string>)
    requires start <= q <= |s|
    ensures |pieces| >= 1
    decreases |s| - q
  {
    if q == |s| then [s[start..]]
    else if HeaderAt(s, q) then [s[start..q]] + SplitFrom(s, q + 3, q + 3)
    else SplitFrom(s, start, q + 1)
  }

  function SplitAtHeaders(s: string): seq<string> {
    SplitFrom(s, 0, 0)
  }

  /** `pieces.join(sep)`. */
  function Join(pieces: seq<string>, sep: string): string
    requires |pieces| >= 1
  {
    if |pieces| == 1 then pieces[0] else pieces[0] + sep + Join(pieces[1..], sep)
  }

  /** The text after piece i of a split from `start` begins at a header: the cut there was a line-start "## ". */
  predicate CutAt(s: string, start: nat, pieces: seq<string>, i: nat)
    requires i + 1 <= |pieces|
  {
    HeaderAt(s, start + |Join(pieces[..i + 1], Marker)|)
  }

  /** Joining a prefix of more than one piece: the first piece, the marker, then the rest of the prefix. */
  lemma JoinCons(pieces: seq<string>, k: nat)
    requires 1 <= k < |pieces|
    ensures Join(pieces[..k + 1], Marker) == pieces[0] + Marker + Join(pieces[1..][..k], Marker)
  {
    assert pieces[..k + 1][1..] == pieces[1..][..k];
  }

  /** Every cut of the split is at a header: the split never cuts elsewhere. */
  lemma {:induction false} SplitFromCutsAtHeaders(s: string, start: nat, q: nat)
    requires start <= q <= |s|
    ensures forall i :: 0 <= i < |SplitFrom(s, start, q)| - 1 ==> CutAt(s, start, SplitFrom(s, start, q), i)
    decreases |s| - q
  {
    var ps := SplitFrom(s, start, q);
    if q == |s| {
    } else if HeaderAt(s, q) {
      var rest := SplitFrom(s, q + 3, q + 3);
      SplitFromCutsAtHeaders(s, q + 3, q + 3);
      assert ps == [s[start..q]] + rest;
      forall i | 0 <= i < |ps| - 1 ensures CutAt(s, start, ps, i) {
        if i == 0 {
          assert ps[..1] == [s[start..q]];
        } else {
          JoinCons(ps, i);
          assert ps[1..] == rest;
          assert CutAt(s, q + 3, rest, i - 1);
        }
      }
    } else {
      SplitFromCutsAtHeaders(s, start, q + 1);
    }
  }

  lemma SplitCutsAtHeaders(s: string)
    ensures forall i :: 0 <= i < |SplitAtHeaders(s)| - 1 ==> CutAt(s, 0, SplitAtHeaders(s), i)
  {
    SplitFromCutsAtHeaders(s, 0, 0);
  }

  /** No header starts strictly inside the piece: every line-start "## " was a cut. */
  predicate NoInnerHeader(p: string) {
    forall j :: 0 <= j <= |p| ==> !InnerHeaderAt(p, j)
  }

  /** The marker at offset j > 0 of a piece, right after a line terminator. */
  predicate InnerHeaderAt(p: string, j: int) {
    0 < j && j + 3 <= |p| && IsLineTerminator(p[j - 1]) && p[j..j + 3] == Marker
  }

  /** Gluing the pieces back together with the marker gives the text that was split. */
  lemma {:induction false} SplitFromRejoins(s: string, start: nat, q: nat)
    requires start <= q <= |s|
    ensures Join(SplitFrom(s, start, q), Marker) == s[start..]
    decreases |s| - q
  {
    if q == |s| {
    } else if HeaderAt(s, q) {
      SplitFromRejoins(s, q + 3, q + 3);
      assert s[start..] == s[start..q] + s[q..q + 3] + s[q + 3..];
    } else {
      SplitFromRejoins(s, start, q + 1);
    }
  }

  lemma SplitRejoins(s: string)
    ensures Join(SplitAtHeaders(s), Marker) == s
  {
    SplitFromRejoins(s, 0, 0);
  }

  /** No piece contains a header at the start of one of its lines past its first. */
  lemma {:induction false} SplitFromNoInnerHeader(s: string, start: nat, q: nat)
    requires start <= q <= |s|
    requires forall r :: start < r < q ==> !HeaderAt(s, r)
    ensures forall i :: 0 <= i < |SplitFrom(s, start, q)| ==> NoInnerHeader(SplitFrom(s, start, q)[i])
    decreases |s| - q
  {
    if q == |s| {
      PieceNoInnerHeader(s, start, q);
      assert s[start..q] == s[start..];
    } else if HeaderAt(s, q) {
      PieceNoInnerHeader(s, start, q);
      SplitFromNoInnerHeader(s, q + 3, q + 3);
    } else {
      SplitFromNoInnerHeader(s, start, q + 1);
    }
  }

  lemma PieceNoInnerHeader(s: string, start: nat, end: nat)
    requires start <= end <= |s|
    requires forall r :: start < r < end ==> !HeaderAt(s, r)
    ensures NoInnerHeader(s[start..end])
  {
    var p := s[start..end];
    forall j ensures !InnerHeaderAt(p, j) {
      if 0 < j && j + 3 <= |p| {
        assert p[j - 1] == s[start + j - 1];
        assert p[j] == s[start + j] && p[j + 1] == s[start + j + 1] && p[j + 2] == s[start + j + 2];
        assert p[j..j + 3] == s[start + j..start + j + 3];
        assert !HeaderAt(s, start + j);
      }
    }
  }

  lemma SplitNoInnerHeader(s: string)
    ensures forall i :: 0 <= i < |SplitAtHeaders(s)| ==> NoInnerHeader(SplitAtHeaders(s)[i])
  {
    SplitFromNoInnerHeader(s, 0, 0);
  }

  /** The first piece never starts with the marker: a reply that opens with a header yields an empty first piece. */
  lemma {:induction false} FirstPieceHasNoMarker(s: string)
    ensures !StartsWith(SplitAtHeaders(s)[0], Marker)
  {
    if HeaderAt(s, 0) {
      assert SplitAtHeaders(s)[0] == "";
    } else {
      FirstPieceFrom(s, 0);
    }
  }

  /** Without a header at 0, the first piece is a prefix of the text. */
  lemma {:induction false} FirstPieceFrom(s: string, q: nat)
    requires q <= |s|
    requires !HeaderAt(s, 0)
    ensures exists e :: q <= e <= |s| && SplitFrom(s, 0, q)[0] == s[..e]
    ensures !StartsWith(SplitFrom(s, 0, q)[0], Marker)
    decreases |s| - q
  {
    if q == |s| {
      assert SplitFrom(s, 0, q)[0] == s[..q];
      NotMarkerPrefix(s, q);
    } else if HeaderAt(s, q) {
      assert SplitFrom(s, 0, q)[0] == s[..q];
      NotMarkerPrefix(s, q);
    } else {
      FirstPieceFrom(s, q + 1);
    }
  }

  lemma NotMarkerPrefix(s: string, e: nat)
    requires e <= |s|
    requires !HeaderAt(s, 0)
    ensures !StartsWith(s[..e], Marker)
  {
    if e >= 3 {
      assert s[..e][..3] == s[0..3];
    }
  }

  /** `filter(Boolean)`: the empty pieces dropped, the others kept in order. */
  function DropEmpty(pieces: seq<string>): (kept: seq<string>)
    ensures |kept| <= |pieces|
    ensures forall p :: p in kept <==> p in pieces && p != []
  {
    if pieces == [] then []
    else if pieces[0] == [] then DropEmpty(pieces[1..])
    else [pieces[0]] + DropEmpty(pieces[1..])
  }

  /** The sections of a reply: the non-empty pieces between headers. */
  function Sections(text: string): seq<string> {
    DropEmpty(SplitAtHeaders(text))
  }

  /** The section predicate of `find`: the lower-cased piece starts with the lower-cased name. */
  predicate Names(lower: CaseMap, piece: string, name: string) {
    StartsWith(lower(piece), lower(name))
  }

  /** `sections.find(...)`, as an index: the first piece the predicate accepts. */
  function FindSection(sections: seq<string>, name: string, lower: CaseMap): (found: Option<nat>)
    ensures found.Some? ==> found.value < |sections| && Names(lower, sections[found.value], name)
    ensures found.Some? ==> forall j :: 0 <= j < found.value ==> !Names(lower, sections[j], name)
    ensures found.None? <==> forall j :: 0 <= j < |sections| ==> !Names(lower, sections[j], name)
  {
    if sections == [] then None
    else if Names(lower, sections[0], name) then Some(0)
    else match FindSection(sections[1..], name, lower)
         case Some(i) => Some(i + 1)
         case None => None
  }

  predicate NoLineTerminator(s: string) {
    forall i :: 0 <= i < |s| ==> !IsLineTerminator(s[i])
  }

  /** The first line terminator of a string, if any. */
  function FirstTerminator(s: string): (at: Option<nat>)
    ensures at.Some? ==> at.value < |s| && IsLineTerminator(s[at.value]) && NoLineTerminator(s[..at.value])
    ensures at.None? <==> NoLineTerminator(s)
  {
    if s == [] then None
    else if IsLineTerminator(s[0]) then Some(0)
    else match FirstTerminator(s[1..])
         case Some(i) =>
           assert s[..i + 1] == [s[0]] + s[1..][..i];
           Some(i + 1)
         case None => None
  }

  /**
   * `replace(/^.*\n/, "")`: when the text opens with a run of
   * non-terminators followed by "\n", that line is dropped; otherwise the
   * text is unchanged. A first line ended by "\r\n" does not match, since
   * `.` does not match "\r".
   */
  function DropFirstLine(s: string): (r: string)
    ensures forall i :: 0 <= i < |s| && s[i] == '\n' && NoLineTerminator(s[..i]) ==> r == s[i + 1..]
    ensures (forall i :: 0 <= i < |s| && s[i] == '\n' ==> !NoLineTerminator(s[..i])) ==> r == s
  {
    match FirstTerminator(s)
    case Some(i) =>
      FirstLineUnique(s, i);
      if s[i] == '\n' then s[i + 1..] else s
    case None => s
  }

  /** A "\n" ending a terminator-free prefix is the first terminator. */
  lemma FirstLineUnique(s: string, i: nat)
    requires i < |s| && IsLineTerminator(s[i]) && NoLineTerminator(s[..i])
    ensures forall j :: 0 <= j < |s| && IsLineTerminator(s[j]) && NoLineTerminator(s[..j]) ==> j == i
  {
    forall j | 0 <= j < |s| && IsLineTerminator(s[j]) && NoLineTerminator(s[..j])
      ensures j == i
    {
      assert forall k :: 0 <= k < i ==> s[..i][k] == s[k];
      assert forall k :: 0 <= k < j ==> s[..j][k] == s[k];
    }
  }

  /** `getSection(name)`: the found section without its header line, trimmed; "" when none is found. */
  function Section(sections: seq<string>, name: string, lower: CaseMap): (body: string)
    ensures Trimmed(body)
    ensures FindSection(sections, name, lower).None? ==> body == ""
    ensures FindSection(sections, name, lower).Some? ==>
              body == Trim(DropFirstLine(sections[FindSection(sections, name, lower).value]))
  {
    match FindSection(sections, name, lower)
    case Some(i) => Trim(DropFirstLine(sections[i]))
    case None => ""
  }

  /**
   * Dropping empty pieces does not change which piece `find` picks, as long
   * as the case mapping keeps "" empty and the name is not empty: an empty
   * piece never starts with a non-empty name.
   */
  lemma {:induction false} FindIgnoresEmpty(pieces: seq<string>, name: string, lower: CaseMap)
    requires lower("") == "" && lower(name) != ""
    ensures FindSection(DropEmpty(pieces), name, lower).None? <==> FindSection(pieces, name, lower).None?
    ensures FindSection(pieces, name, lower).Some? ==>
              FindSection(DropEmpty(pieces), name, lower).Some?
              && DropEmpty(pieces)[FindSection(DropEmpty(pieces), name, lower).value]
                 == pieces[FindSection(pieces, name, lower).value]
  {
    if pieces != [] {
      FindIgnoresEmpty(pieces[1..], name, lower);
      if pieces[0] == [] {
        assert !Names(lower, pieces[0], name);
      } else if !Names(lower, pieces[0], name) {
        assert DropEmpty(pieces) == [pieces[0]] + DropEmpty(pieces[1..]);
        assert DropEmpty(pieces)[1..] == DropEmpty(pieces[1..]);
      }
    }
  }

  /** So each section body is the same whether or not the empty pieces are filtered out first. */
  lemma SectionIgnoresEmpty(pieces: seq<string>, name: string, lower: CaseMap)
    requires lower("") == "" && lower(name) != ""
    ensures Section(DropEmpty(pieces), name, lower) == Section(pieces, name, lower)
  {
    FindIgnoresEmpty(pieces, name, lower);
  }

  /** `parsePortrait`: the four sections and the whole reply. */
  function Parse(text: string, lower: CaseMap): (p: Portrait)
    ensures p.raw == text
    ensures Trimmed(p.archetype) && Trimmed(p.analysis) && Trimmed(p.insight) && Trimmed(p.recommendation)
    ensures p.archetype == Section(Sections(text), ArchetypeName, lower)
    ensures p.analysis == Section(Sections(text), AnalysisName, lower)
    ensures p.insight == Section(Sections(text), InsightName, lower)
    ensures p.recommendation == Section(Sections(text), RecommendationName, lower)
  {
    var sections := Sections(text);
    Portrait(Section(sections, ArchetypeName, lower), Section(sections, AnalysisName, lower),
             Section(sections, InsightName, lower), Section(sections, RecommendationName, lower), text)
  }

  /** A text the case mapping never makes start with any section name parses to four empty sections around the raw text. */
  lemma NoHeadersAllEmpty(text: string, lower: CaseMap)
    requires forall p :: p in Sections(text) ==>
               !Names(lower, p, ArchetypeName) && !Names(lower, p, AnalysisName)
               && !Names(lower, p, InsightName) && !Names(lower, p, RecommendationName)
    ensures Parse(text, lower) == Portrait("", "", "", "", text)
  {
    var ss := Sections(text);
    assert forall j :: 0 <= j < |ss| ==> ss[j] in ss;
  }

  /**
   * A found section written "name\nbody" contributes the trimmed body: the
   * header line, ended by "\n", is dropped.
   */
  lemma HeaderLineDropped(head: string, body: string)
    requires NoLineTerminator(head)
    ensures DropFirstLine(head + "\n" + body) == body
  {
    var s := head + "\n" + body;
    assert s[..|head|] == head;
    assert s[|head| + 1..] == body;
  }

  /** A header line ended by "\r\n" is not dropped: the whole section, header included, is kept. */
  lemma CrlfHeaderKept(head: string, body: string)
    requires NoLineTerminator(head)
    ensures DropFirstLine(head + "\r\n" + body) == head + "\r\n" + body
  {
    var s := head + "\r\n" + body;
    assert s[..|head|] == head;
    assert s[|head|] == '\r';
    assert forall k :: 0 <= k < |head| ==> s[k] == head[k];
    forall i | 0 <= i < |s| && s[i] == '\n' ensures !NoLineTerminator(s[..i]) {
      assert i > |head|;
      assert s[..i][|head|] == '\r';
    }
  }

  /** A section with no "\n" at all keeps its first line. */
  lemma SingleLineKept(s: string)
    requires forall i :: 0 <= i < |s| ==> s[i] != '\n'
    ensures DropFirstLine(s) == s
  {
  }
}
