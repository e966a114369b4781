/**
 * The regular expressions of the resolver, written out as explicit matchers.
 *
 * Every pattern the resolver builds is a sequence of elements, each a
 * `[0-9]+` run or a literal text (a dot, `_RC`, or the decimal text of a
 * number spliced in by an f-string), some of them captured as groups.
 * `MatchAt` is the greedy matcher at one start position and `Search` is
 * Python's `re.search`: the first start position, from the left, at which the
 * pattern matches. `Spans` is the meaning of a pattern without any strategy:
 * the ways a backtracking regex engine can match it.
 */
module TagPattern {
  import opened Wrappers
  import opened Decimal

  datatype Elem = Digits | Literal(text: string, captured: bool)

  type Pattern = seq<Elem>

  /**
   * Every digit run is last or followed by a literal that starts with a
   * non-digit, so a shorter run could never let the rest of the pattern match.
   */
  predicate WellFormed(pat: Pattern) {
    forall i :: 0 <= i < |pat| - 1 && pat[i].Digits? ==>
      pat[i + 1].Literal? && |pat[i + 1].text| > 0 && !IsDigit(pat[i + 1].text[0])
  }

  /** The end of the longest run of digits in s starting at p. */
  function DigitRunEnd(s: string, p: nat): (e: nat)
    requires p <= |s|
    ensures p <= e <= |s|
    ensures forall i :: p <= i < e ==> IsDigit(s[i])
    ensures e == |s| || !IsDigit(s[e])
    decreases |s| - p
  {
    if p < |s| && IsDigit(s[p]) then DigitRunEnd(s, p + 1) else p
  }

  /**
   * pat matches s[p..e], capturing the texts gs. With greedy == false every
   * digit run may have any non-empty length (every path a backtracking engine
   * may take); with greedy == true each run must also be maximal.
   */
  ghost predicate Spans(pat: Pattern, s: string, p: nat, gs: seq<string>, e: nat, greedy: bool)
    decreases pat
  {
    p <= |s| &&
    if pat == [] then gs == [] && e == p
    else match pat[0]
      case Digits =>
        |gs| > 0 && 0 < |gs[0]| && p + |gs[0]| <= |s| && s[p..p + |gs[0]|] == gs[0] && AllDigits(gs[0]) &&
        (greedy ==> p + |gs[0]| == |s| || !IsDigit(s[p + |gs[0]|])) &&
        Spans(pat[1..], s, p + |gs[0]|, gs[1..], e, greedy)
      case Literal(t, captured) =>
        p + |t| <= |s| && s[p..p + |t|] == t &&
        if captured then |gs| > 0 && gs[0] == t && Spans(pat[1..], s, p + |t|, gs[1..], e, greedy)
        else Spans(pat[1..], s, p + |t|, gs, e, greedy)
  }

  /** The groups a match of pat captures: digit texts and the captured literals. */
  predicate GroupShape(pat: Pattern, gs: seq<string>)
    decreases pat
  {
    if pat == [] then gs == []
    else match pat[0]
      case Digits => |gs| > 0 && |gs[0]| > 0 && AllDigits(gs[0]) && GroupShape(pat[1..], gs[1..])
      case Literal(t, captured) =>
        if captured then |gs| > 0 && gs[0] == t && GroupShape(pat[1..], gs[1..])
        else GroupShape(pat[1..], gs)
  }

  /** Greedy matching of pat at position p: each digit run takes all the digits it can. */
  function MatchAt(pat: Pattern, s: string, p: nat): (r: Option<(seq<string>, nat)>)
    requires p <= |s|
    ensures r.Some? ==> p <= r.value.1 <= |s|
    decreases pat
  {
    if pat == [] then Some(([], p))
    else match pat[0]
      case Digits =>
        var e := DigitRunEnd(s, p);
        if e == p then None
        else (match MatchAt(pat[1..], s, e)
          case None => None
          case Some((gs, end)) => Some(([s[p..e]] + gs, end)))
      case Literal(t, captured) =>
        if p + |t| <= |s| && s[p..p + |t|] == t then
          (match MatchAt(pat[1..], s, p + |t|)
           case None => None
           case Some((gs, end)) => Some((if captured then [t] + gs else gs, end)))
        else None
  }

  /** re.search from position `from`: the leftmost start at which MatchAt succeeds. */
  function Search(pat: Pattern, s: string, from: nat): (r: Option<(nat, seq<string>, nat)>)
    requires from <= |s|
    ensures r.Some? ==> from <= r.value.0 <= |s| && MatchAt(pat, s, r.value.0) == Some((r.value.1, r.value.2))
    ensures r.Some? ==> forall q :: from <= q < r.value.0 ==> MatchAt(pat, s, q).None?
    ensures r.None? ==> forall q :: from <= q <= |s| ==> MatchAt(pat, s, q).None?
    decreases |s| - from
  {
    match MatchAt(pat, s, from)
    case Some((gs, e)) => Some((from, gs, e))
    case None => if from == |s| then None else Search(pat, s, from + 1)
  }

  /**
   * The greedy matcher returns exactly the match whose digit runs are all
   * maximal, with the groups that match captures.
   */
  lemma {:induction false} MatchAtSound(pat: Pattern, s: string, p: nat)
    requires p <= |s|
    ensures MatchAt(pat, s, p).Some? ==>
      var (gs, e) := MatchAt(pat, s, p).value;
      Spans(pat, s, p, gs, e, true) && GroupShape(pat, gs)
    decreases pat
  {
    if pat != [] && MatchAt(pat, s, p).Some? {
      var (gs, e) := MatchAt(pat, s, p).value;
      match pat[0]
      case Digits =>
        var q := DigitRunEnd(s, p);
        MatchAtSound(pat[1..], s, q);
        var (gs1, e1) := MatchAt(pat[1..], s, q).value;
        assert gs == [s[p..q]] + gs1 && e == e1;
        assert forall i :: 0 <= i < q - p ==> s[p..q][i] == s[p + i];
      case Literal(t, captured) =>
        MatchAtSound(pat[1..], s, p + |t|);
    }
  }

  lemma {:induction false} DigitRunEndAt(s: string, p: nat, q: nat)
    requires p <= q <= |s|
    requires forall i :: p <= i < q ==> IsDigit(s[i])
    requires q == |s| || !IsDigit(s[q])
    ensures DigitRunEnd(s, p) == q
    decreases q - p
  {
    if p < q {
      DigitRunEndAt(s, p + 1, q);
    }
  }

  /** A greedy match is one of the matches a backtracking engine may find. */
  lemma {:induction false} GreedySpansLoose(pat: Pattern, s: string, p: nat, gs: seq<string>, e: nat)
    requires Spans(pat, s, p, gs, e, true)
    ensures Spans(pat, s, p, gs, e, false)
    decreases pat
  {
    if pat != [] {
      match pat[0]
      case Digits => GreedySpansLoose(pat[1..], s, p + |gs[0]|, gs[1..], e);
      case Literal(t, captured) =>
        if captured {
          GreedySpansLoose(pat[1..], s, p + |t|, gs[1..], e);
        } else {
          GreedySpansLoose(pat[1..], s, p + |t|, gs, e);
        }
    }
  }

  lemma DigitsIn(s: string, p: nat, q: nat)
    requires p <= q <= |s| && AllDigits(s[p..q])
    ensures forall i :: p <= i < q ==> IsDigit(s[i])
  {
    forall i | p <= i < q
      ensures IsDigit(s[i])
    {
      assert s[i] == s[p..q][i - p];
    }
  }

  /** The greedy match is the only one with maximal digit runs. */
  lemma {:induction false} GreedyUnique(pat: Pattern, s: string, p: nat, gs: seq<string>, e: nat)
    requires Spans(pat, s, p, gs, e, true)
    ensures MatchAt(pat, s, p) == Some((gs, e))
    decreases pat
  {
    if pat != [] {
      match pat[0]
      case Digits =>
        GreedyUnique(pat[1..], s, p + |gs[0]|, gs[1..], e);
        GreedyDigitsUnique(pat, s, p, gs, e);
      case Literal(t, captured) =>
        var tail := if captured then gs[1..] else gs;
        GreedyUnique(pat[1..], s, p + |t|, tail, e);
        LiteralStep(t, captured, pat[1..], s, p, tail, e);
        assert pat == [Literal(t, captured)] + pat[1..];
        assert captured ==> gs == [t] + tail;
    }
  }

  /** A maximal leading digit run followed by the greedy match of the rest is the greedy match. */
  lemma GreedyDigitsUnique(pat: Pattern, s: string, p: nat, gs: seq<string>, e: nat)
    requires pat != [] && pat[0].Digits? && |gs| > 0 && 0 < |gs[0]| && p + |gs[0]| <= |s|
    requires s[p..p + |gs[0]|] == gs[0] && AllDigits(gs[0])
    requires p + |gs[0]| == |s| || !IsDigit(s[p + |gs[0]|])
    requires MatchAt(pat[1..], s, p + |gs[0]|) == Some((gs[1..], e))
    ensures MatchAt(pat, s, p) == Some((gs, e))
  {
    var q := p + |gs[0]|;
    DigitsIn(s, p, q);
    DigitRunEndAt(s, p, q);
    DigitsStep(pat[1..], s, p, q, gs[1..], e);
    assert pat == [Digits] + pat[1..];
    assert gs == [s[p..q]] + gs[1..];
  }

  lemma WellFormedTail(pat: Pattern)
    requires WellFormed(pat) && pat != []
    ensures WellFormed(pat[1..])
  {
    forall i | 0 <= i < |pat[1..]| - 1 && pat[1..][i].Digits?
      ensures pat[1..][i + 1].Literal? && |pat[1..][i + 1].text| > 0 && !IsDigit(pat[1..][i + 1].text[0])
    {
      assert pat[1..][i] == pat[i + 1] && pat[1..][i + 1] == pat[i + 2];
    }
  }

  /**
   * For a well-formed pattern, greedy matching finds a match at p whenever any
   * backtracking path does, so Search is exactly re.search.
   */
  lemma {:induction false} GreedyComplete(pat: Pattern, s: string, p: nat, gs: seq<string>, e: nat)
    requires WellFormed(pat)
    requires Spans(pat, s, p, gs, e, false)
    ensures MatchAt(pat, s, p).Some?
    decreases pat
  {
    if pat != [] {
      WellFormedTail(pat);
      var rest := pat[1..];
      match pat[0]
      case Digits =>
        var q := p + |gs[0]|;
        GreedyComplete(rest, s, q, gs[1..], e);
        GreedyDigitsHead(pat, s, p, q);
      case Literal(t, captured) =>
        var tail := if captured then gs[1..] else gs;
        GreedyComplete(rest, s, p + |t|, tail, e);
        LiteralHead(pat, s, p);
    }
  }

  /**
   * A leading digit group of a well-formed pattern that spans the digits
   * s[p..q], followed by a match of the rest at q, gives a greedy match at p:
   * the next literal starts with a non-digit, so the greedy run also ends at q.
   */
  lemma GreedyDigitsHead(pat: Pattern, s: string, p: nat, q: nat)
    requires WellFormed(pat) && pat != [] && pat[0].Digits?
    requires p < q <= |s| && AllDigits(s[p..q])
    requires |pat| > 1 ==> q + |pat[1].text| <= |s| && s[q..q + |pat[1].text|] == pat[1].text
    requires MatchAt(pat[1..], s, q).Some?
    ensures MatchAt(pat, s, p).Some?
  {
    DigitsIn(s, p, q);
    if |pat| > 1 {
      assert s[q..q + |pat[1].text|][0] == s[q];
      DigitRunEndAt(s, p, q);
    } else {
      assert pat[1..] == [];
    }
  }

  /** For a well-formed pattern, no start position where greedy matching fails admits any match. */
  lemma NoGreedyNoMatch(pat: Pattern, s: string, q: nat)
    requires WellFormed(pat) && q <= |s| && MatchAt(pat, s, q).None?
    ensures forall gs, e :: !Spans(pat, s, q, gs, e, false)
  {
    forall gs, e
      ensures !Spans(pat, s, q, gs, e, false)
    {
      if Spans(pat, s, q, gs, e, false) {
        GreedyComplete(pat, s, q, gs, e);
      }
    }
  }

  /** Some start position of s admits a match of pat, by any backtracking path. */
  ghost predicate AnyMatch(pat: Pattern, s: string) {
    exists q: nat, gs, e :: q <= |s| && Spans(pat, s, q, gs, e, false)
  }

  /** re.search on a well-formed pattern fails exactly when no start position admits any match. */
  lemma SearchFailsIffNoMatch(pat: Pattern, s: string)
    requires WellFormed(pat)
    ensures Search(pat, s, 0).None? <==> !AnyMatch(pat, s)
  {
    if Search(pat, s, 0).None? {
      forall q: nat, gs, e | q <= |s|
        ensures !Spans(pat, s, q, gs, e, false)
      {
        NoGreedyNoMatch(pat, s, q);
      }
    } else {
      var r := Search(pat, s, 0).value;
      MatchAtSound(pat, s, r.0);
      GreedySpansLoose(pat, s, r.0, r.1, r.2);
    }
  }

  /**
   * The match re.search reports: the maximal-run match at p, where no start
   * position left of p admits any match.
   */
  ghost predicate LeftmostMatch(pat: Pattern, s: string, p: nat, gs: seq<string>, e: nat) {
    Spans(pat, s, p, gs, e, true) &&
    forall q: nat, gs', e' :: q < p ==> !Spans(pat, s, q, gs', e', false)
  }

  /**
   * A successful re.search on a well-formed pattern returns the maximal-run
   * match at the leftmost start position that admits any match.
   */
  lemma SearchIsLeftmost(pat: Pattern, s: string)
    requires WellFormed(pat) && Search(pat, s, 0).Some?
    ensures
      var (p, gs, e) := Search(pat, s, 0).value;
      LeftmostMatch(pat, s, p, gs, e) && GroupShape(pat, gs)
  {
    var (p, gs, e) := Search(pat, s, 0).value;
    MatchAtSound(pat, s, p);
    forall q: nat, gs', e' | q < p
      ensures !Spans(pat, s, q, gs', e', false)
    {
      NoGreedyNoMatch(pat, s, q);
    }
  }

  /** The text a pattern made of literals only spells out. */
  function LiteralText(pat: Pattern): string
    requires forall i :: 0 <= i < |pat| ==> pat[i].Literal?
  {
    if pat == [] then "" else pat[0].text + LiteralText(pat[1..])
  }

  lemma LiteralTextCons(t: string, captured: bool, rest: Pattern)
    requires forall i :: 0 <= i < |rest| ==> rest[i].Literal?
    ensures forall i :: 0 <= i < |[Literal(t, captured)] + rest| ==> ([Literal(t, captured)] + rest)[i].Literal?
    ensures LiteralText([Literal(t, captured)] + rest) == t + LiteralText(rest)
  {
    assert ([Literal(t, captured)] + rest)[1..] == rest;
  }

  predicate HasSubstringAt(s: string, t: string, p: nat) {
    p + |t| <= |s| && s[p..p + |t|] == t
  }

  /** Python's `t in s`. */
  predicate ContainsText(s: string, t: string) {
    exists p :: 0 <= p <= |s| && HasSubstringAt(s, t, p)
  }

  /** t + u occurs at p exactly when t occurs at p and u right after it. */
  lemma SubstringSplit(s: string, t: string, u: string, p: nat)
    ensures HasSubstringAt(s, t + u, p) <==> HasSubstringAt(s, t, p) && HasSubstringAt(s, u, p + |t|)
  {
    if p + |t| + |u| <= |s| {
      var w := s[p..p + |t| + |u|];
      assert s[p..p + |t|] == w[..|t|];
      assert s[p + |t|..p + |t| + |u|] == w[|t|..];
      assert w == w[..|t|] + w[|t|..];
    }
  }

  /** A leading literal matches exactly when its text is at p and the rest matches after it. */
  lemma LiteralHead(pat: Pattern, s: string, p: nat)
    requires pat != [] && pat[0].Literal? && p <= |s|
    ensures p + |pat[0].text| <= |s| ==>
      (MatchAt(pat, s, p).Some? <==>
        HasSubstringAt(s, pat[0].text, p) && MatchAt(pat[1..], s, p + |pat[0].text|).Some?)
    ensures p + |pat[0].text| > |s| ==> MatchAt(pat, s, p).None? && !HasSubstringAt(s, pat[0].text, p)
  {
  }

  lemma {:induction false} LiteralMatchAt(pat: Pattern, s: string, p: nat)
    requires forall i :: 0 <= i < |pat| ==> pat[i].Literal?
    requires p <= |s|
    ensures MatchAt(pat, s, p).Some? <==> HasSubstringAt(s, LiteralText(pat), p)
    decreases pat
  {
    if pat != [] {
      var t := pat[0].text;
      var rest := LiteralText(pat[1..]);
      assert LiteralText(pat) == t + rest;
      SubstringSplit(s, t, rest, p);
      LiteralHead(pat, s, p);
      if p + |t| <= |s| {
        LiteralMatchAt(pat[1..], s, p + |t|);
      }
    }
  }

  /** For a pattern of literals only, re.search is a substring test. */
  lemma SearchLiteralIsSubstring(pat: Pattern, s: string)
    requires forall i :: 0 <= i < |pat| ==> pat[i].Literal?
    ensures Search(pat, s, 0).Some? <==> ContainsText(s, LiteralText(pat))
  {
    if Search(pat, s, 0).Some? {
      LiteralMatchAt(pat, s, Search(pat, s, 0).value.0);
    }
    if ContainsText(s, LiteralText(pat)) {
      var p :| 0 <= p <= |s| && HasSubstringAt(s, LiteralText(pat), p);
      LiteralMatchAt(pat, s, p);
    }
  }

  // Single steps of the matcher, for evaluating it on concrete text.

  /** A literal that the text holds at p is consumed, and captured when it is a group. */
  lemma LiteralStep(t: string, captured: bool, rest: Pattern, s: string, p: nat, gs: seq<string>, e: nat)
    requires p + |t| <= |s| && s[p..p + |t|] == t
    requires MatchAt(rest, s, p + |t|) == Some((gs, e))
    ensures MatchAt([Literal(t, captured)] + rest, s, p) == Some((if captured then [t] + gs else gs, e))
  {
    var pat := [Literal(t, captured)] + rest;
    assert pat[0] == Literal(t, captured);
    assert pat[1..] == rest;
    assert MatchAt(pat[1..], s, p + |t|) == Some((gs, e));
  }

  /** A digit group consumes the whole run of digits that starts at p. */
  lemma DigitsStep(rest: Pattern, s: string, p: nat, q: nat, gs: seq<string>, e: nat)
    requires p < q <= |s| && DigitRunEnd(s, p) == q
    requires MatchAt(rest, s, q) == Some((gs, e))
    ensures MatchAt([Digits] + rest, s, p) == Some(([s[p..q]] + gs, e))
  {
    var pat := [Digits] + rest;
    assert pat[0] == Digits;
    assert pat[1..] == rest;
  }

  /** A match at o with none before it is the one Search reports. */
  lemma {:induction false} SearchAtFirst(pat: Pattern, s: string, from: nat, o: nat, gs: seq<string>, e: nat)
    requires from <= o <= |s| && MatchAt(pat, s, o) == Some((gs, e))
    requires forall q :: from <= q < o ==> MatchAt(pat, s, q).None?
    ensures Search(pat, s, from) == Some((o, gs, e))
    decreases o - from
  {
    if from < o {
      SearchAtFirst(pat, s, from + 1, o, gs, e);
    }
  }
}
