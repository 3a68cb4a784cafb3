/** The highlighter (utils/highlightText.tsx): `text.split(new RegExp(`(${keyword})`, 'gi'))`
    followed by marking each part that equals the keyword, ignoring case. The keyword is taken
    literally; a keyword that contains regular-expression syntax is reported as an error. */
module Highlight {
  import opened Wrappers
  import opened Text

  datatype Part = Plain(text: string) | Mark(text: string)

  /** `highlightText` returns either the text itself or an array of parts. */
  datatype Highlighted = Unsegmented(text: string) | Parts(parts: seq<Part>)

  datatype PatternError = PatternSyntaxError

  /** The characters with a meaning of their own in a regular expression. */
  const RegexSyntax := "\\^$.|?*+()[]{}"

  predicate HasRegexSyntax(keyword: string) {
    exists i :: 0 <= i < |keyword| && keyword[i] in RegexSyntax
  }

  /** The keyword occurs in `t` at index `i`, ignoring (ASCII) case. */
  predicate MatchesAt(t: string, keyword: string, i: int) {
    0 <= i && i + |keyword| <= |t| && EqualIgnoringCase(t[i..i + |keyword|], keyword)
  }

  /** No case-insensitive occurrence of the keyword anywhere in `t`. */
  predicate NoMatchIn(t: string, keyword: string) {
    forall j | 0 <= j <= |t| :: !MatchesAt(t, keyword, j)
  }

  /** The split: plain text, matched text, plain text, ..., plain text, matching left to right
      and resuming after each match. */
  function Split(t: string, keyword: string): (r: seq<string>)
    requires keyword != []
    ensures |r| >= 1
    decreases |t|
  {
    if |t| < |keyword| then [t]
    else if EqualIgnoringCase(t[..|keyword|], keyword) then ["", t[..|keyword|]] + Split(t[|keyword|..], keyword)
    else
      var r := Split(t[1..], keyword);
      [[t[0]] + r[0]] + r[1..]
  }

  function Join(ss: seq<string>): string {
    if ss == [] then "" else ss[0] + Join(ss[1..])
  }

  lemma SplitShort(t: string, keyword: string)
    requires keyword != [] && |t| < |keyword|
    ensures Split(t, keyword) == [t]
  {
  }

  lemma SplitMatchStep(t: string, keyword: string)
    requires keyword != [] && |keyword| <= |t| && EqualIgnoringCase(t[..|keyword|], keyword)
    ensures Split(t, keyword) == ["", t[..|keyword|]] + Split(t[|keyword|..], keyword)
  {
  }

  lemma SplitSkipStep(t: string, keyword: string)
    requires keyword != [] && |keyword| <= |t| && !EqualIgnoringCase(t[..|keyword|], keyword)
    ensures Split(t, keyword) == [[t[0]] + Split(t[1..], keyword)[0]] + Split(t[1..], keyword)[1..]
  {
  }

  lemma {:induction false} JoinSplit(t: string, keyword: string)
    requires keyword != []
    ensures Join(Split(t, keyword)) == t
  {
    var k := |keyword|;
    if |t| < k {
    } else if EqualIgnoringCase(t[..k], keyword) {
      JoinSplit(t[k..], keyword);
      assert ["", t[..k]] + Split(t[k..], keyword) == [""] + ([t[..k]] + Split(t[k..], keyword));
      assert t[..k] + t[k..] == t;
    } else {
      var r := Split(t[1..], keyword);
      JoinSplit(t[1..], keyword);
      assert Join(r) == r[0] + Join(r[1..]);
      assert ([[t[0]] + r[0]] + r[1..])[1..] == r[1..];
      assert [t[0]] + t[1..] == t;
    }
  }

  /** The parts at odd positions are the matches. */
  predicate OddPartsMatch(r: seq<string>, keyword: string) {
    forall i :: 0 <= i < |r| && i % 2 == 1 ==> EqualIgnoringCase(r[i], keyword)
  }

  /** The parts at even positions hold no occurrence of the keyword. */
  predicate EvenPartsFree(r: seq<string>, keyword: string) {
    forall i :: 0 <= i < |r| && i % 2 == 0 ==> NoMatchIn(r[i], keyword)
  }

  /** Putting an empty plain part and a match in front keeps both properties. */
  lemma PartsAfterMatch(r: seq<string>, m: string, keyword: string)
    requires keyword != [] && EqualIgnoringCase(m, keyword)
    requires OddPartsMatch(r, keyword) && EvenPartsFree(r, keyword)
    ensures OddPartsMatch(["", m] + r, keyword) && EvenPartsFree(["", m] + r, keyword)
  {
    var r2 := ["", m] + r;
    forall i | 2 <= i < |r2|
      ensures r2[i] == r[i - 2]
    {
    }
  }

  /** Replacing the first (plain) part by one free of matches keeps both properties. */
  lemma PartsWithNewFirst(r: seq<string>, p: string, keyword: string)
    requires r != [] && NoMatchIn(p, keyword)
    requires OddPartsMatch(r, keyword) && EvenPartsFree(r, keyword)
    ensures OddPartsMatch([p] + r[1..], keyword) && EvenPartsFree([p] + r[1..], keyword)
  {
    var r2 := [p] + r[1..];
    forall i | 1 <= i < |r2|
      ensures r2[i] == r[i]
    {
    }
  }

  /** The parts alternate: plain parts free of the keyword, then matches. */
  lemma {:induction false} SplitParts(t: string, keyword: string)
    requires keyword != []
    ensures |Split(t, keyword)| % 2 == 1
    ensures OddPartsMatch(Split(t, keyword), keyword) && EvenPartsFree(Split(t, keyword), keyword)
    decreases |t|
  {
    var k := |keyword|;
    if |t| < k {
      SplitShort(t, keyword);
      if |t| >= 1 {
        assert !MatchesAt(t, keyword, 0);
      }
    } else if EqualIgnoringCase(t[..k], keyword) {
      SplitParts(t[k..], keyword);
      SplitMatchStep(t, keyword);
      PartsAfterMatch(Split(t[k..], keyword), t[..k], keyword);
    } else {
      var r' := Split(t[1..], keyword);
      SplitParts(t[1..], keyword);
      SplitSkipStep(t, keyword);
      JoinSplit(t[1..], keyword);
      assert Join(r') == r'[0] + Join(r'[1..]);
      assert t[0..k] == t[..k];
      ConsKeepsNoMatch(t, r'[0], keyword);
      PartsWithNewFirst(r', [t[0]] + r'[0], keyword);
    }
  }

  /** Extending an occurrence-free prefix of `t[1..]` by `t[0]` keeps it free when no match starts at 0. */
  lemma ConsKeepsNoMatch(t: string, p: string, keyword: string)
    requires t != [] && keyword != []
    requires p <= t[1..] && NoMatchIn(p, keyword) && !MatchesAt(t, keyword, 0)
    ensures NoMatchIn([t[0]] + p, keyword)
  {
    var k := |keyword|;
    var q := [t[0]] + p;
    assert q <= t;
    forall j | 0 <= j <= |q|
      ensures !MatchesAt(q, keyword, j)
    {
      if j == 0 {
        if k <= |q| {
          assert q[0..k] == t[0..k];
        }
      } else {
        if j + k <= |q| {
          assert q[j..j + k] == p[j - 1..j - 1 + k];
        }
        assert MatchesAt(q, keyword, j) ==> MatchesAt(p, keyword, j - 1);
      }
    }
  }

  /** When the first match starts at index `n`, the split goes: the text before it, the
      match, then the split of what follows. */
  lemma {:induction false} SplitAtFirstMatch(t: string, n: nat, keyword: string)
    requires keyword != [] && MatchesAt(t, keyword, n)
    requires forall j :: 0 <= j < n ==> !MatchesAt(t, keyword, j)
    ensures Split(t, keyword) == [t[..n], t[n..n + |keyword|]] + Split(t[n + |keyword|..], keyword)
    decreases n
  {
    if n == 0 {
      SplitAtFrontMatch(t, keyword);
    } else {
      NoMatchShift(t, n, keyword);
      SplitAtFirstMatch(t[1..], n - 1, keyword);
      SplitSkipStep(t, keyword);
      SplitAfterSkip(t, n, keyword);
    }
  }

  lemma SplitAtFrontMatch(t: string, keyword: string)
    requires keyword != [] && MatchesAt(t, keyword, 0)
    ensures Split(t, keyword) == [t[..0], t[0..|keyword|]] + Split(t[0 + |keyword|..], keyword)
  {
    var k := |keyword|;
    assert t[0..k] == t[..k] && t[..0] == [] && t[0 + k..] == t[k..];
    SplitMatchStep(t, keyword);
  }

  /** The inductive step of `SplitAtFirstMatch`: the split of `t[1..]` with its first match at
      `n - 1` gives the split of `t` with its first match at `n`. */
  lemma SplitAfterSkip(t: string, n: nat, keyword: string)
    requires keyword != [] && 0 < n && n + |keyword| <= |t|
    requires Split(t, keyword) == [[t[0]] + Split(t[1..], keyword)[0]] + Split(t[1..], keyword)[1..]
    requires Split(t[1..], keyword)
      == [t[1..][..n - 1], t[1..][n - 1..n - 1 + |keyword|]] + Split(t[1..][n - 1 + |keyword|..], keyword)
    ensures Split(t, keyword) == [t[..n], t[n..n + |keyword|]] + Split(t[n + |keyword|..], keyword)
  {
    var k := |keyword|;
    SliceShift(t, n, k);
    ConsOntoFirst(t[0], t[..n][1..], t[n..n + k], Split(t[n + k..], keyword), Split(t, keyword), Split(t[1..], keyword));
  }

  lemma ConsOntoFirst(c: char, p: string, m: string, rest: seq<string>, a: seq<string>, b: seq<string>)
    requires b == [p, m] + rest && a == [[c] + b[0]] + b[1..]
    ensures a == [[c] + p, m] + rest
  {
  }

  /** No match at 0 and the first match at `n > 0`: in `t[1..]` the first match is at `n - 1`. */
  lemma NoMatchShift(t: string, n: nat, keyword: string)
    requires keyword != [] && 0 < n && MatchesAt(t, keyword, n)
    requires forall j :: 0 <= j < n ==> !MatchesAt(t, keyword, j)
    ensures |keyword| <= |t| && !EqualIgnoringCase(t[..|keyword|], keyword)
    ensures MatchesAt(t[1..], keyword, n - 1)
    ensures forall j :: 0 <= j < n - 1 ==> !MatchesAt(t[1..], keyword, j)
  {
    assert !MatchesAt(t, keyword, 0);
    assert t[0..|keyword|] == t[..|keyword|];
    MatchesAtShift(t, keyword, n - 1);
    forall j | 0 <= j < n - 1
      ensures !MatchesAt(t[1..], keyword, j)
    {
      MatchesAtShift(t, keyword, j);
    }
  }

  /** A match at `j` in `t[1..]` is a match at `j + 1` in `t`. */
  lemma MatchesAtShift(t: string, keyword: string, j: nat)
    requires t != []
    ensures MatchesAt(t[1..], keyword, j) <==> MatchesAt(t, keyword, j + 1)
  {
    var k := |keyword|;
    if j + k <= |t| - 1 {
      var x, y := t[1..][j..j + k], t[j + 1..j + 1 + k];
      assert x == y;
    }
  }

  /** The pieces of `t[1..]` around index `n - 1` are those of `t` around `n`, shifted by one. */
  lemma SliceShift(t: string, n: nat, k: nat)
    requires 0 < n && n + k <= |t|
    ensures t[1..][..n - 1] == t[..n][1..] && [t[0]] + t[..n][1..] == t[..n]
    ensures t[1..][n - 1..n - 1 + k] == t[n..n + k]
    ensures t[1..][n - 1 + k..] == t[n + k..]
  {
  }

  /** A text free of the keyword stays free once its first character is dropped. */
  lemma NoMatchInRest(t: string, keyword: string)
    requires t != [] && NoMatchIn(t, keyword)
    ensures NoMatchIn(t[1..], keyword)
  {
    forall j | 0 <= j <= |t[1..]|
      ensures !MatchesAt(t[1..], keyword, j)
    {
      MatchesAtShift(t, keyword, j);
    }
  }

  /** Without any occurrence, the split is the text alone; and only then. */
  lemma {:induction false} SplitWithoutMatch(t: string, keyword: string)
    requires keyword != []
    ensures NoMatchIn(t, keyword) <==> Split(t, keyword) == [t]
  {
    var k := |keyword|;
    if Split(t, keyword) == [t] {
      SplitParts(t, keyword);
      assert NoMatchIn(Split(t, keyword)[0], keyword);
    }
    if NoMatchIn(t, keyword) {
      if |t| < k {
        SplitShort(t, keyword);
      } else {
        assert !MatchesAt(t, keyword, 0);
        assert t[0..k] == t[..k];
        NoMatchInRest(t, keyword);
        SplitWithoutMatch(t[1..], keyword);
        SplitSkipStep(t, keyword);
        assert [t[0]] + t[1..] == t;
      }
    }
  }

  /** The part for one piece: marked exactly when it equals the keyword ignoring case. */
  function MarkPiece(piece: string, keyword: string): (r: Part)
    ensures r.text == piece
    ensures r.Mark? <==> Lower(piece) == Lower(keyword)
  {
    if Lower(piece) == Lower(keyword) then Part.Mark(piece) else Plain(piece)
  }

  function PartText(p: Part): string {
    match p
    case Plain(s) => s
    case Mark(s) => s
  }

  function JoinParts(ps: seq<Part>): string {
    Join(seq(|ps|, i requires 0 <= i < |ps| => PartText(ps[i])))
  }

  /** The parts a split yields, each marked when it equals the keyword ignoring case. */
  function MarkAll(pieces: seq<string>, keyword: string): (ps: seq<Part>)
    ensures |ps| == |pieces| && forall i :: 0 <= i < |ps| ==> ps[i] == MarkPiece(pieces[i], keyword)
  {
    seq(|pieces|, i requires 0 <= i < |pieces| => MarkPiece(pieces[i], keyword))
  }

  /** The shape of `highlightText`'s array result. */
  predicate WellMarked(ps: seq<Part>, text: string, keyword: string) {
    JoinParts(ps) == text
    && |ps| % 2 == 1
    && (forall i :: 0 <= i < |ps| ==> (ps[i].Mark? <==> i % 2 == 1))
    && (forall i :: 0 <= i < |ps| && ps[i].Mark? ==> Lower(ps[i].text) == Lower(keyword))
    && (forall i :: 0 <= i < |ps| && ps[i].Plain? ==> NoMatchIn(ps[i].text, keyword))
  }

  /** Marking the split of `text` gives parts that join back to `text`, alternate between
      plain text free of the keyword and marked matches, and start and end with plain text. */
  lemma MarkSplit(text: string, keyword: string)
    requires keyword != []
    ensures WellMarked(MarkAll(Split(text, keyword), keyword), text, keyword)
  {
    var pieces := Split(text, keyword);
    var ps := MarkAll(pieces, keyword);
    JoinSplit(text, keyword);
    SplitParts(text, keyword);
    assert seq(|ps|, i requires 0 <= i < |ps| => PartText(ps[i])) == pieces;
    forall i | 0 <= i < |ps|
      ensures ps[i].Mark? <==> i % 2 == 1
    {
      EqualIgnoringCaseIff(pieces[i], keyword);
      if i % 2 == 0 && EqualIgnoringCase(pieces[i], keyword) {
        assert pieces[i][0..|keyword|] == pieces[i];
        assert MatchesAt(pieces[i], keyword, 0);
      }
    }
  }

  /** `highlightText(text, keyword)`. */
  function Highlight(text: string, keyword: string): (r: Result<Highlighted, PatternError>)
    ensures keyword == "" ==> r == Success(Unsegmented(text))
    ensures keyword != "" && HasRegexSyntax(keyword) ==> r == Failure(PatternSyntaxError)
    ensures keyword != "" && !HasRegexSyntax(keyword) ==> r.Success? && r.value.Parts?
    ensures r.Success? && r.value.Parts? ==> WellMarked(r.value.parts, text, keyword)
    ensures r.Success? && r.value.Parts? ==> r.value.parts == MarkAll(Split(text, keyword), keyword)
  {
    if keyword == "" then Success(Unsegmented(text))
    else if HasRegexSyntax(keyword) then Failure(PatternSyntaxError)
    else
      MarkSplit(text, keyword);
      Success(Parts(MarkAll(Split(text, keyword), keyword)))
  }

  /** With no occurrence of the keyword, the result is the text as a single plain part. */
  lemma HighlightWithoutMatch(text: string, keyword: string)
    requires keyword != "" && !HasRegexSyntax(keyword) && NoMatchIn(text, keyword)
    ensures Highlight(text, keyword) == Success(Parts([Plain(text)]))
  {
    SplitWithoutMatch(text, keyword);
    EqualIgnoringCaseIff(text, keyword);
    if EqualIgnoringCase(text, keyword) {
      assert text[0..|keyword|] == text;
      assert MatchesAt(text, keyword, 0);
    }
    assert MarkAll(Split(text, keyword), keyword) == [Plain(text)];
  }

  /** A `+` on its own is not a valid pattern. */
  lemma PlusIsRejected(text: string)
    ensures Highlight(text, "+") == Failure(PatternSyntaxError)
  {
    assert "+"[0] in RegexSyntax;
  }

  /** A position whose character differs from the keyword's first one, ignoring case, is no match. */
  lemma FirstCharMismatch(t: string, keyword: string, j: int)
    requires keyword != [] && 0 <= j < |t| && LowerChar(t[j]) != LowerChar(keyword[0])
    ensures !MatchesAt(t, keyword, j)
  {
  }

  /** "foo bar foo" split on "foo": the two matches around the plain " bar ". */
  lemma SplitFooBarFoo(kw: string, b: string)
    requires kw == "foo" && b == " bar "
    ensures Split(kw + b + kw, kw) == ["", kw, b, kw, ""]
  {
    var t := kw + b + kw;
    var u := b + kw;
    EqualIgnoringCaseIff(kw, kw);
    assert t[0..3] == kw && t[..0] == [] && t[3..] == u;
    SplitAtFirstMatch(t, 0, kw);
    forall j | 0 <= j < 5
      ensures !MatchesAt(u, kw, j)
    {
      assert u[j] == b[j];
      assert b[j] in " bar";
      FirstCharMismatch(u, kw, j);
    }
    assert u[5..8] == kw && u[..5] == b && u[8..] == [];
    SplitAtFirstMatch(u, 5, kw);
    SplitShort([], kw);
  }

  /** "foo bar foo" with "foo": two marked "foo" around the plain " bar ". */
  lemma FooBarFoo(kw: string, b: string)
    requires kw == "foo" && b == " bar "
    ensures Highlight(kw + b + kw, kw)
         == Success(Parts([Plain(""), Part.Mark(kw), Plain(b), Part.Mark(kw), Plain("")]))
  {
    assert !HasRegexSyntax(kw) by {
      assert forall i :: 0 <= i < |kw| ==> kw[i] == 'f' || kw[i] == 'o';
    }
    SplitFooBarFoo(kw, b);
    assert Lower(b) != Lower(kw) && Lower("") != Lower(kw);
    assert MarkAll(Split(kw + b + kw, kw), kw)
        == [Plain(""), Part.Mark(kw), Plain(b), Part.Mark(kw), Plain("")];
  }
}
