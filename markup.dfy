/**
 * The inline markup of question text: `text.split(/(\*[^*]+\*)/g)` cuts the
 * text into the gaps between `*x*` segments and the segments themselves,
 * and every part that starts and ends with '*' is shown emphasised without
 * its first and last characters.
 */
module Markup {
  import opened Wrappers

  /** A segment the pattern `\*[^*]+\*` matches: a star, at least one other character, a star. */
  predicate IsEmphasis(part: string)
  {
    && |part| >= 3 && part[0] == '*' && part[|part| - 1] == '*'
    && forall k :: 0 < k < |part| - 1 ==> part[k] != '*'
  }

  /** The position of the first '*' at or after `i`, or `|s|` when there is none. */
  function NextStar(s: string, i: nat): (j: nat)
    requires i <= |s|
    ensures i <= j <= |s| && (j < |s| ==> s[j] == '*')
    ensures forall k :: i <= k < j ==> s[k] != '*'
    decreases |s| - i
  {
    if i == |s| || s[i] == '*' then i else NextStar(s, i + 1)
  }

  /** Where the match of the pattern that starts at `q` ends, when one starts there. */
  function MatchAt(s: string, q: nat): (e: Option<nat>)
    requires q <= |s|
    ensures e.Some? ==> q < e.value <= |s| && IsEmphasis(s[q..e.value])
    ensures e.Some? ==> forall end :: q < end <= |s| && IsEmphasis(s[q..end]) ==> end == e.value
    ensures e.None? ==> forall end :: q < end <= |s| ==> !IsEmphasis(s[q..end])
  {
    if q < |s| && s[q] == '*' then
      var j := NextStar(s, q + 1);
      if q + 2 <= j < |s| then Some(j + 1) else None
    else None
  }

  /**
   * The split loop: `p` is where the pending gap starts and `q` the next
   * position at which a match is tried. Gaps and matches alternate, starting
   * and ending with a gap, and every match is a `*x*` segment.
   */
  function SplitFrom(s: string, p: nat, q: nat): (parts: seq<string>)
    requires p <= q <= |s|
    ensures |parts| % 2 == 1
    ensures forall k :: 0 <= k < |parts| && k % 2 == 1 ==> IsEmphasis(parts[k])
    decreases |s| - q
  {
    if q == |s| then [s[p..]]
    else
      match MatchAt(s, q)
      case Some(e) => [s[p..q], s[q..e]] + SplitFrom(s, e, e)
      case None => SplitFrom(s, p, q + 1)
  }

  /** `text.split(/(\*[^*]+\*)/g)`. */
  function Split(text: string): (parts: seq<string>)
    ensures |parts| % 2 == 1
    ensures forall k :: 0 <= k < |parts| && k % 2 == 1 ==> IsEmphasis(parts[k])
  {
    SplitFrom(text, 0, 0)
  }

  function Concat(parts: seq<string>): string
  {
    if parts == [] then "" else parts[0] + Concat(parts[1..])
  }

  /** No match of the pattern starts at a position in `[i, j)`. */
  ghost predicate NoMatchIn(s: string, i: nat, j: nat)
    requires i <= j <= |s|
  {
    forall r, e :: i <= r < j && r < e <= |s| ==> !IsEmphasis(s[r..e])
  }

  /**
   * `parts` cut `s` from `i` on by the leftmost-first rule: a gap in which no
   * match starts, then either the end of the text or a match followed by the
   * cut of the rest.
   */
  ghost predicate LeftmostFrom(s: string, i: nat, parts: seq<string>)
    requires i <= |s|
    decreases |parts|
  {
    && |parts| >= 1
    && var g := |parts[0]|;
    && i + g <= |s| && s[i..i + g] == parts[0] && NoMatchIn(s, i, i + g)
    && if |parts| == 1 then i + g == |s|
       else
         var j := i + g;
         && |parts| >= 3 && j + |parts[1]| <= |s| && s[j..j + |parts[1]|] == parts[1]
         && IsEmphasis(parts[1]) && LeftmostFrom(s, j + |parts[1]|, parts[2..])
  }

  lemma {:induction false} ConcatPair(a: string, b: string, rest: seq<string>)
    ensures Concat([a, b] + rest) == a + b + Concat(rest)
  {
  }

  lemma {:induction false} SplitFromConcat(s: string, p: nat, q: nat)
    requires p <= q <= |s|
    ensures Concat(SplitFrom(s, p, q)) == s[p..]
    decreases |s| - q
  {
    if q == |s| {
      assert Concat([s[p..]]) == s[p..] + Concat([]);
    } else {
      match MatchAt(s, q)
      case Some(e) =>
        SplitFromConcat(s, e, e);
        ConcatPair(s[p..q], s[q..e], SplitFrom(s, e, e));
        assert s[p..] == s[p..q] + s[q..e] + s[e..];
      case None =>
        SplitFromConcat(s, p, q + 1);
    }
  }

  /** Joining the parts gives back the text. */
  lemma SplitConcat(text: string)
    ensures Concat(Split(text)) == text
  {
    SplitFromConcat(text, 0, 0);
  }

  lemma {:induction false} SplitFromLeftmost(s: string, p: nat, q: nat)
    requires p <= q <= |s| && NoMatchIn(s, p, q)
    ensures LeftmostFrom(s, p, SplitFrom(s, p, q))
    decreases |s| - q
  {
    if q < |s| {
      match MatchAt(s, q)
      case Some(e) =>
        SplitFromLeftmost(s, e, e);
        var parts := SplitFrom(s, p, q);
        assert parts[2..] == SplitFrom(s, e, e);
      case None =>
        SplitFromLeftmost(s, p, q + 1);
    }
  }

  /** A match ends just after the first star that follows its opening one. */
  lemma EmphasisEnd(s: string, j: nat, e: nat)
    requires j < e <= |s| && IsEmphasis(s[j..e])
    ensures e == NextStar(s, j + 1) + 1
  {
    assert s[e - 1] == '*' by { assert s[j..e][e - 1 - j] == s[e - 1]; }
    forall k | j < k < e - 1 ensures s[k] != '*' {
      assert s[j..e][k - j] == s[k];
    }
  }

  /** What one step of a leftmost cut says about its first gap and its first match. */
  lemma LeftmostStep(s: string, i: nat, parts: seq<string>)
    requires i <= |s| && LeftmostFrom(s, i, parts)
    ensures |parts| >= 1 && i + |parts[0]| <= |s|
    ensures parts[0] == s[i..i + |parts[0]|] && NoMatchIn(s, i, i + |parts[0]|)
    ensures |parts| == 1 <==> i + |parts[0]| == |s|
    ensures |parts| > 1 ==>
      var j := i + |parts[0]|;
      && |parts| >= 3 && j + |parts[1]| <= |s| && parts[1] == s[j..j + |parts[1]|]
      && IsEmphasis(parts[1]) && LeftmostFrom(s, j + |parts[1]|, parts[2..])
  {
  }

  /** In two leftmost cuts from the same position, the first gap of one is no longer than the other's. */
  lemma GapBound(s: string, i: nat, a: seq<string>, b: seq<string>)
    requires i <= |s| && LeftmostFrom(s, i, a) && LeftmostFrom(s, i, b)
    ensures |a[0]| <= |b[0]|
  {
    LeftmostStep(s, i, a);
    LeftmostStep(s, i, b);
    if |a| > 1 {
      var j := i + |a[0]|;
      assert IsEmphasis(s[j..j + |a[1]|]);
      assert !(j < i + |b[0]|);
    }
  }

  /** Two matches that start at the same position are the same text. */
  lemma SameMatch(s: string, j: nat, x: string, y: string)
    requires j + |x| <= |s| && x == s[j..j + |x|] && IsEmphasis(x)
    requires j + |y| <= |s| && y == s[j..j + |y|] && IsEmphasis(y)
    ensures x == y
  {
    EmphasisEnd(s, j, j + |x|);
    EmphasisEnd(s, j, j + |y|);
  }

  /** Two leftmost cuts from the same position start with the same gap and the same match. */
  lemma LeftmostHeads(s: string, i: nat, a: seq<string>, b: seq<string>)
    requires i <= |s| && LeftmostFrom(s, i, a) && LeftmostFrom(s, i, b)
    ensures a[0] == b[0] && (|a| == 1 <==> |b| == 1)
    ensures |a| > 1 ==> a[1] == b[1]
  {
    LeftmostStep(s, i, a);
    LeftmostStep(s, i, b);
    GapBound(s, i, a, b);
    GapBound(s, i, b, a);
    var j := i + |a[0]|;
    assert j == i + |b[0]|;
    if |a| > 1 {
      assert |b| > 1;
      assert j + |b[1]| <= |s| && b[1] == s[j..j + |b[1]|] && IsEmphasis(b[1]);
      SameMatch(s, j, a[1], b[1]);
    }
  }

  lemma {:induction false} LeftmostUnique(s: string, i: nat, a: seq<string>, b: seq<string>)
    requires i <= |s| && LeftmostFrom(s, i, a) && LeftmostFrom(s, i, b)
    ensures a == b
    decreases |a|
  {
    LeftmostHeads(s, i, a, b);
    if |a| > 1 {
      var k := i + |a[0]| + |a[1]|;
      assert LeftmostFrom(s, k, a[2..]) && LeftmostFrom(s, k, b[2..]);
      LeftmostUnique(s, k, a[2..], b[2..]);
      assert a == [a[0], a[1]] + a[2..];
      assert b == [b[0], b[1]] + b[2..];
    }
  }

  /**
   * `Split` is the leftmost-first cut, and the only one: a sequence of parts
   * is what the split returns exactly when it cuts the text by that rule.
   */
  lemma SplitIsLeftmost(text: string, parts: seq<string>)
    ensures LeftmostFrom(text, 0, Split(text))
    ensures LeftmostFrom(text, 0, parts) <==> parts == Split(text)
  {
    SplitFromLeftmost(text, 0, 0);
    if LeftmostFrom(text, 0, parts) {
      LeftmostUnique(text, 0, parts, Split(text));
    }
  }

  /** How a part of the text is shown. */
  datatype Segment = Plain(text: string) | Emphasised(text: string)

  /** `part.slice(1, -1)`: the part without its first and last characters; empty when shorter than two. */
  function Inner(part: string): (inner: string)
    ensures |part| >= 2 ==> part == [part[0]] + inner + [part[|part| - 1]]
    ensures |part| < 2 ==> inner == ""
  {
    if |part| >= 2 then part[1..|part| - 1] else ""
  }

  /** `part.startsWith('*') && part.endsWith('*')` picks the emphasised parts. */
  function Classify(part: string): (seg: Segment)
    ensures seg.Emphasised? <==> |part| > 0 && part[0] == '*' && part[|part| - 1] == '*'
    ensures seg.Plain? ==> seg.text == part
    ensures |part| >= 2 ==> Source(seg) == part
    ensures part == "*" ==> seg == Emphasised("")
  {
    if |part| > 0 && part[0] == '*' && part[|part| - 1] == '*' then Emphasised(Inner(part)) else Plain(part)
  }

  /** `QuestionText` as written: every split part classified by its first and last characters. */
  function QuestionSegments(text: string): (segs: seq<Segment>)
    ensures |segs| == |Split(text)|
    ensures forall k :: 0 <= k < |segs| ==>
      var part := Split(text)[k];
      && (segs[k].Emphasised? <==> |part| > 0 && part[0] == '*' && part[|part| - 1] == '*')
      && (segs[k].Plain? ==> segs[k].text == part)
      && (segs[k].Emphasised? ==> segs[k].text == Inner(part))
      && (|part| >= 2 ==> Source(segs[k]) == part)
  {
    var parts := Split(text);
    seq(|parts|, k requires 0 <= k < |parts| => Classify(parts[k]))
  }

  /** `QuestionText` as intended: the matched parts emphasised, every gap shown as it is. */
  function QuestionSegmentsIntended(text: string): (segs: seq<Segment>)
    ensures |segs| == |Split(text)|
    ensures forall k :: 0 <= k < |segs| ==> (segs[k].Emphasised? <==> k % 2 == 1)
    ensures forall k :: 0 <= k < |segs| ==> Source(segs[k]) == Split(text)[k]
  {
    var parts := Split(text);
    MatchesReadBack(parts);
    seq(|parts|, k requires 0 <= k < |parts| =>
      if k % 2 == 1 then Emphasised(Inner(parts[k])) else Plain(parts[k]))
  }

  /** A matched part is read back from its inside between two stars. */
  lemma MatchesReadBack(parts: seq<string>)
    requires forall k :: 0 <= k < |parts| && k % 2 == 1 ==> IsEmphasis(parts[k])
    ensures forall k :: 0 <= k < |parts| && k % 2 == 1 ==> Source(Emphasised(Inner(parts[k]))) == parts[k]
  {
    forall k | 0 <= k < |parts| && k % 2 == 1 ensures Source(Emphasised(Inner(parts[k]))) == parts[k] {
      var p := parts[k];
      assert p == [p[0]] + Inner(p) + [p[|p| - 1]];
    }
  }

  /** The markup a segment is shown for. */
  function Source(seg: Segment): string
  {
    match seg
    case Plain(t) => t
    case Emphasised(t) => "*" + t + "*"
  }

  /** The text written back from how it is shown. */
  function Unrender(segs: seq<Segment>): string
  {
    if segs == [] then "" else Source(segs[0]) + Unrender(segs[1..])
  }

  lemma {:induction false} UnrenderParts(segs: seq<Segment>, parts: seq<string>)
    requires |segs| == |parts|
    requires forall k :: 0 <= k < |parts| ==> Source(segs[k]) == parts[k]
    ensures Unrender(segs) == Concat(parts)
  {
    if segs != [] {
      UnrenderParts(segs[1..], parts[1..]);
    }
  }

  /**
   * A matched `*x*` part is shown emphasised as `x`, with `x` non-empty and
   * free of stars, both as written and as intended.
   */
  lemma MatchShownEmphasised(text: string, k: nat)
    requires k < |Split(text)| && k % 2 == 1
    ensures var part := Split(text)[k];
      && IsEmphasis(part)
      && QuestionSegments(text)[k] == Emphasised(part[1..|part| - 1])
      && QuestionSegmentsIntended(text)[k] == Emphasised(part[1..|part| - 1])
      && |part[1..|part| - 1]| > 0 && '*' !in part[1..|part| - 1]
  {
  }

  /** Text without a star is one plain part equal to the text, as written and as intended. */
  lemma NoStarIsPlain(text: string)
    requires '*' !in text
    ensures Split(text) == [text]
    ensures QuestionSegments(text) == [Plain(text)]
    ensures QuestionSegmentsIntended(text) == [Plain(text)]
  {
    assert text[0..|text|] == text;
    assert LeftmostFrom(text, 0, [text]) by {
      forall r, e | 0 <= r < |text| && r < e <= |text| ensures !IsEmphasis(text[r..e]) {
        assert text[r..e][0] == text[r];
      }
    }
    SplitIsLeftmost(text, [text]);
  }

  /**
   * As intended, the shown segments give back the text: gaps are shown as
   * they are and each match loses only its two delimiting stars.
   */
  lemma IntendedRoundTrip(text: string)
    ensures Unrender(QuestionSegmentsIntended(text)) == text
  {
    UnrenderParts(QuestionSegmentsIntended(text), Split(text));
    SplitConcat(text);
  }

  /**
   * As written, a gap that starts and ends with a star is shown emphasised
   * although it matched nothing: the texts "*" and "**" are each one gap and
   * are shown as an empty emphasis, so the stars are lost; as intended "*" is
   * shown plain.
   */
  lemma LoneStarEmphasised()
    ensures Split("*") == ["*"]
    ensures QuestionSegments("*") == [Emphasised("")]
    ensures Unrender(QuestionSegments("*")) != "*"
    ensures QuestionSegmentsIntended("*") == [Plain("*")]
    ensures Split("**") == ["**"] && QuestionSegments("**") == [Emphasised("")]
  {
  }

  /**
   * As written, a lone star after a match is a one-star gap in mid-text and
   * is shown as an empty emphasis, so "*a**" is displayed without its last star.
   */
  lemma TrailingStarEmphasised()
    ensures Split("*a**") == ["", "*a*", "*"]
    ensures QuestionSegments("*a**") == [Plain(""), Emphasised("a"), Emphasised("")]
    ensures Unrender(QuestionSegments("*a**")) != "*a**"
  {
    var s := "*a**";
    assert NextStar(s, 1) == 2;
    assert MatchAt(s, 0) == Some(3);
    assert NextStar(s, 4) == 4;
    assert MatchAt(s, 3) == None;
    assert SplitFrom(s, 3, 3) == SplitFrom(s, 3, 4) == [s[3..]] == ["*"];
    assert s[0..0] == "" && s[0..3] == "*a*";
    assert Split(s) == [s[0..0], s[0..3]] + ["*"] == ["", "*a*", "*"];
    var segs := QuestionSegments(s);
    assert segs[0] == Classify("") == Plain("");
    assert Inner("*a*") == "*a*"[1..2] == "a";
    assert segs[1] == Classify("*a*") == Emphasised("a");
    assert segs[2] == Classify("*") == Emphasised("");
    assert segs == [Plain(""), Emphasised("a"), Emphasised("")];
    assert |Unrender(segs)| == 5 by {
      assert segs[1..][1..] == [Emphasised("")] && segs[1..][1..][1..] == [];
      assert |Unrender(segs[1..][1..])| == 2;
      assert |Unrender(segs[1..])| == 5;
    }
  }

  /** The two renderings differ only on gaps that start and end with a star. */
  lemma WrittenAgreesWithIntended(text: string, k: nat)
    requires k < |Split(text)|
    requires var part := Split(text)[k]; !(k % 2 == 0 && |part| > 0 && part[0] == '*' && part[|part| - 1] == '*')
    ensures QuestionSegments(text)[k] == QuestionSegmentsIntended(text)[k]
  {
  }
}
