/**
 * The regular expression of `transformarData` (src/main.ts:148):
 *
 *   (\d{2}) / (\d{2}) / (\d{4}) \s+ "às" \s+ (\d{1,2}) "h" (\d{2})
 *
 * evaluated as String.prototype.match does without the g flag: the leftmost
 * position at which the pattern matches, with its five capture groups.
 *
 * At a given position the pattern has exactly one way to match: each \s+ must
 * be followed by a non-space ('à' or a digit), so the greedy run is the only
 * one that can succeed, and when two digits follow the second \s+ the hour must
 * be both of them, since backtracking to one digit would need 'h' where a digit
 * stands. MatchAt below scans that way; MatchAtSound and MatchAtComplete show it
 * agrees with the pattern read as a set of strings (WellFormed, Spelled).
 */
module DatePattern {
  import opened Wrappers

  /** \d without the u flag: the ASCII digits. */
  predicate IsDigit(c: char)
  {
    '0' <= c <= '9'
  }

  /**
   * \s: the WhiteSpace and LineTerminator code points of ECMAScript, that is
   * TAB, LF, VT, FF, CR, the byte-order mark U+FEFF, LINE and PARAGRAPH
   * SEPARATOR, and the Unicode space separators (category Zs).
   */
  predicate IsSpace(c: char)
  {
    c == '\t' || c == '\n' || c == '\U{000B}' || c == '\U{000C}' || c == '\r' ||
    c == ' ' || c == '\U{00A0}' || c == '\U{1680}' || ('\U{2000}' <= c <= '\U{200A}') ||
    c == '\U{2028}' || c == '\U{2029}' || c == '\U{202F}' || c == '\U{205F}' ||
    c == '\U{3000}' || c == '\U{FEFF}'
  }

  /** The "à" of "às" (U+00E0, the precomposed form the source file holds). */
  const AGrave: char := '\U{00E0}'

  predicate AllDigits(t: string)
  {
    forall k :: 0 <= k < |t| ==> IsDigit(t[k])
  }

  predicate AllSpaces(t: string)
  {
    forall k :: 0 <= k < |t| ==> IsSpace(t[k])
  }

  /** The five capture groups: day, month, year, hour, minute. */
  datatype Groups = Groups(day: string, month: string, year: string, hour: string, minute: string)

  // ---------------------------------------------------------------------
  // The pattern as a set of strings.

  /** The groups fit their quantifiers and the two \s+ runs are non-empty runs of spaces. */
  predicate WellFormed(g: Groups, w1: string, w2: string)
  {
    GroupsFit(g) &&
    |w1| >= 1 && AllSpaces(w1) &&
    |w2| >= 1 && AllSpaces(w2)
  }

  /** The text a match with these groups and space runs consists of. */
  function Spelled(g: Groups, w1: string, w2: string): string
  {
    DateText(g) + ConnectorText(w1, w2) + TimeText(g)
  }

  /** "\s+às\s+" with the given space runs */
  function ConnectorText(w1: string, w2: string): string
  {
    w1 + [AGrave, 's'] + w2
  }

  /** "DD/MM/YYYY" */
  function DateText(g: Groups): string
  {
    g.day + "/" + g.month + "/" + g.year
  }

  /** "HhMM" */
  function TimeText(g: Groups): string
  {
    g.hour + "h" + g.minute
  }

  /** s holds t starting at position i. */
  predicate OccursAt(t: string, s: string, i: nat)
  {
    i + |t| <= |s| && s[i..i + |t|] == t
  }

  // ---------------------------------------------------------------------
  // The matcher.

  predicate DigitsAt(s: string, i: nat, n: nat)
  {
    i + n <= |s| && forall k :: i <= k < i + n ==> IsDigit(s[k])
  }

  /** The end of the longest run of spaces in s starting at i. */
  function SkipSpaces(s: string, i: nat): (j: nat)
    requires i <= |s|
    ensures i <= j <= |s|
    ensures forall k :: i <= k < j ==> IsSpace(s[k])
    ensures j == |s| || !IsSpace(s[j])
    decreases |s| - i
  {
    if i < |s| && IsSpace(s[i]) then SkipSpaces(s, i + 1) else i
  }

  /** The only run of spaces from i that stops before a non-space is the longest one. */
  lemma SkipSpacesExact(s: string, i: nat, w: string)
    requires OccursAt(w, s, i) && AllSpaces(w)
    requires i + |w| < |s| && !IsSpace(s[i + |w|])
    ensures SkipSpaces(s, i) == i + |w|
    decreases |w|
  {
    if |w| > 0 {
      assert s[i] == w[0];
      assert OccursAt(w[1..], s, i + 1) by {
        assert s[i + 1..i + 1 + |w[1..]|] == s[i..i + |w|][1..];
      }
      SkipSpacesExact(s, i + 1, w[1..]);
    }
  }

  /** Where the hour group ends, once it starts at k: greedy \d{1,2}. */
  function HourLength(s: string, k: nat): nat
  {
    if k + 1 < |s| && IsDigit(s[k + 1]) then 2 else 1
  }

  /** "DD/MM/YYYY" stands at position i. */
  predicate DateAt(s: string, i: nat)
  {
    DigitsAt(s, i, 2) && DigitsAt(s, i + 3, 2) && DigitsAt(s, i + 6, 4) && s[i + 2] == '/' && s[i + 5] == '/'
  }

  /** Where "\s+às\s+" starting at p ends, if it stands there. */
  function ConnectorEnd(s: string, p: nat): Option<nat>
    requires p <= |s|
  {
    var j := SkipSpaces(s, p);
    if j == p || j + 2 > |s| || s[j] != AGrave || s[j + 1] != 's' then None
    else
      var k := SkipSpaces(s, j + 2);
      if k == j + 2 then None else Some(k)
  }

  /** The hour and minute groups of "HhMM" at position k, if it stands there. */
  function TimeAt(s: string, k: nat): Option<(string, string)>
  {
    if !DigitsAt(s, k, 1) then None
    else
      var h := HourLength(s, k);
      if !(k + h < |s| && s[k + h] == 'h' && DigitsAt(s, k + h + 1, 2)) then None
      else Some((s[k..k + h], s[k + h + 1..k + h + 3]))
  }

  /** Each group is a digit string of its quantifier's length; in particular none is empty. */
  predicate GroupsFit(g: Groups)
  {
    |g.day| == 2 && AllDigits(g.day) && |g.month| == 2 && AllDigits(g.month) &&
    |g.year| == 4 && AllDigits(g.year) && 1 <= |g.hour| <= 2 && AllDigits(g.hour) &&
    |g.minute| == 2 && AllDigits(g.minute)
  }

  /** The match of the pattern at position i, if there is one. */
  function MatchAt(s: string, i: nat): (r: Option<Groups>)
    ensures r.Some? ==> GroupsFit(r.value)
  {
    if !DateAt(s, i) then None
    else match ConnectorEnd(s, i + 10)
      case None => None
      case Some(k) =>
        match TimeAt(s, k)
        case None => None
        case Some((hour, minute)) => Some(Groups(s[i..i + 2], s[i + 3..i + 5], s[i + 6..i + 10], hour, minute))
  }

  /** An occurrence of a + b is an occurrence of a followed by one of b. */
  lemma OccursConcat(a: string, b: string, s: string, i: nat)
    ensures OccursAt(a + b, s, i) <==> OccursAt(a, s, i) && OccursAt(b, s, i + |a|)
  {
    if OccursAt(a, s, i) && OccursAt(b, s, i + |a|) {
      assert s[i..i + |a| + |b|] == s[i..i + |a|] + s[i + |a|..i + |a| + |b|];
    }
    if OccursAt(a + b, s, i) {
      assert s[i..i + |a|] == s[i..i + |a + b|][..|a|];
      assert s[i + |a|..i + |a| + |b|] == s[i..i + |a + b|][|a|..];
    }
  }

  lemma DateSound(s: string, i: nat)
    requires DateAt(s, i)
    ensures OccursAt(DateText(Groups(s[i..i + 2], s[i + 3..i + 5], s[i + 6..i + 10], "", "")), s, i)
  {
    assert s[i..i + 10] == s[i..i + 2] + "/" + s[i + 3..i + 5] + "/" + s[i + 6..i + 10];
  }

  lemma DateComplete(s: string, i: nat, g: Groups)
    requires |g.day| == 2 && AllDigits(g.day) && |g.month| == 2 && AllDigits(g.month) && |g.year| == 4 && AllDigits(g.year)
    requires OccursAt(DateText(g), s, i)
    ensures DateAt(s, i) && s[i..i + 2] == g.day && s[i + 3..i + 5] == g.month && s[i + 6..i + 10] == g.year
  {
    var t := DateText(g);
    assert forall p :: 0 <= p < 10 ==> s[i + p] == t[p];
    assert t[..2] == g.day && t[3..5] == g.month && t[6..] == g.year;
    assert s[i..i + 2] == t[..2];
    assert s[i + 3..i + 5] == t[3..5];
    assert s[i + 6..i + 10] == t[6..];
  }

  lemma ConnectorSound(s: string, p: nat)
    requires p <= |s| && ConnectorEnd(s, p).Some?
    ensures var j := SkipSpaces(s, p); var k := ConnectorEnd(s, p).value;
      p < j && j + 2 < k &&
      AllSpaces(s[p..j]) && AllSpaces(s[j + 2..k]) && OccursAt(ConnectorText(s[p..j], s[j + 2..k]), s, p)
  {
    var j := SkipSpaces(s, p);
    var k := ConnectorEnd(s, p).value;
    assert s[p..k] == s[p..j] + [AGrave, 's'] + s[j + 2..k];
  }

  lemma ConnectorComplete(s: string, p: nat, w1: string, w2: string)
    requires p <= |s| && |w1| >= 1 && AllSpaces(w1) && |w2| >= 1 && AllSpaces(w2)
    requires OccursAt(ConnectorText(w1, w2), s, p)
    requires p + |w1| + 2 + |w2| < |s| && IsDigit(s[p + |w1| + 2 + |w2|])
    ensures ConnectorEnd(s, p) == Some(p + |w1| + 2 + |w2|)
  {
    var j := p + |w1|;
    OccursConcat(w1 + [AGrave, 's'], w2, s, p);
    OccursConcat(w1, [AGrave, 's'], s, p);
    assert s[j..j + 2] == [AGrave, 's'];
    assert s[j] == AGrave && s[j + 1] == 's';
    SkipSpacesExact(s, p, w1);
    SkipSpacesExact(s, j + 2, w2);
  }

  lemma TimeSound(s: string, k: nat)
    requires TimeAt(s, k).Some?
    ensures var (hour, minute) := TimeAt(s, k).value;
      1 <= |hour| <= 2 && AllDigits(hour) && |minute| == 2 && AllDigits(minute) &&
      OccursAt(TimeText(Groups("", "", "", hour, minute)), s, k)
  {
    var h := HourLength(s, k);
    assert s[k..k + h + 3] == s[k..k + h] + "h" + s[k + h + 1..k + h + 3];
  }

  lemma TimeComplete(s: string, k: nat, g: Groups)
    requires 1 <= |g.hour| <= 2 && AllDigits(g.hour) && |g.minute| == 2 && AllDigits(g.minute)
    requires OccursAt(TimeText(g), s, k)
    ensures TimeAt(s, k) == Some((g.hour, g.minute))
  {
    var t := TimeText(g);
    var h := |g.hour|;
    assert forall p :: 0 <= p < |t| ==> s[k + p] == t[p];
    assert t[..h] == g.hour && t[h] == 'h' && t[h + 1..] == g.minute;
    assert HourLength(s, k) == h;
    assert s[k..k + h] == t[..h];
    assert s[k + h + 1..k + h + 3] == t[h + 1..];
  }

  /** Every match the matcher reports is an occurrence of the pattern with those groups; w1 and w2 are its space runs. */
  lemma MatchAtSound(s: string, i: nat) returns (w1: string, w2: string)
    requires MatchesAt(s, i)
    ensures WellFormed(MatchAt(s, i).value, w1, w2) && OccursAt(Spelled(MatchAt(s, i).value, w1, w2), s, i)
  {
    var g := MatchAt(s, i).value;
    var j := SkipSpaces(s, i + 10);
    var k := ConnectorEnd(s, i + 10).value;
    w1, w2 := s[i + 10..j], s[j + 2..k];
    DateSound(s, i);
    ConnectorSound(s, i + 10);
    TimeSound(s, k);
    assert DateText(g) == DateText(Groups(s[i..i + 2], s[i + 3..i + 5], s[i + 6..i + 10], "", ""));
    assert TimeText(g) == TimeText(Groups("", "", "", g.hour, g.minute));
    assert |DateText(g)| == 10 && OccursAt(DateText(g), s, i);
    assert |ConnectorText(w1, w2)| == k - (i + 10) && OccursAt(ConnectorText(w1, w2), s, i + 10);
    assert OccursAt(TimeText(g), s, k);
    PiecesSpell(s, i, g, w1, w2);
    assert AllSpaces(w1) && AllSpaces(w2) && |w1| >= 1 && |w2| >= 1;
  }

  /** The three pieces one after another spell the whole match. */
  lemma PiecesSpell(s: string, i: nat, g: Groups, w1: string, w2: string)
    requires OccursAt(DateText(g), s, i)
    requires OccursAt(ConnectorText(w1, w2), s, i + |DateText(g)|)
    requires OccursAt(TimeText(g), s, i + |DateText(g)| + |ConnectorText(w1, w2)|)
    ensures OccursAt(Spelled(g, w1, w2), s, i)
  {
    OccursConcat(DateText(g), ConnectorText(w1, w2), s, i);
    OccursConcat(DateText(g) + ConnectorText(w1, w2), TimeText(g), s, i);
  }

  /** Every occurrence of the pattern is found by the matcher, with the same groups. */
  lemma MatchAtComplete(s: string, i: nat, g: Groups, w1: string, w2: string)
    requires WellFormed(g, w1, w2) && OccursAt(Spelled(g, w1, w2), s, i)
    ensures MatchAt(s, i) == Some(g)
  {
    var c := ConnectorText(w1, w2);
    OccursConcat(DateText(g) + c, TimeText(g), s, i);
    OccursConcat(DateText(g), c, s, i);
    DateComplete(s, i, g);
    var k := i + 10 + |c|;
    TimeComplete(s, k, g);
    assert IsDigit(s[k]);
    ConnectorComplete(s, i + 10, w1, w2);
  }

  // ---------------------------------------------------------------------
  // Leftmost search.

  /** The pattern matches at position i. */
  predicate MatchesAt(s: string, i: nat)
  {
    MatchAt(s, i).Some?
  }

  /** Whether the pattern matches at each position 0..|s| of s. */
  function Hits(s: string): (h: seq<bool>)
    ensures |h| == |s| + 1
    ensures forall k :: 0 <= k <= |s| ==> h[k] == MatchesAt(s, k)
  {
    seq(|s| + 1, (k: int) requires 0 <= k <= |s| => MatchesAt(s, k))
  }

  /** The regex engine's scan: the first position from `from` on that is a hit. */
  function Search(hits: seq<bool>, from: nat): (r: Option<nat>)
    requires from <= |hits|
    ensures r.Some? ==> from <= r.value < |hits| && hits[r.value]
    ensures r.Some? ==> forall k :: from <= k < r.value ==> !hits[k]
    ensures r.None? ==> forall k :: from <= k < |hits| ==> !hits[k]
    decreases |hits| - from
  {
    if from == |hits| then None
    else if hits[from] then Some(from)
    else Search(hits, from + 1)
  }

  /** `s.match(regex)` without the g flag: the groups of the leftmost match, or null. */
  function Match(s: string): (r: Option<Groups>)
    ensures r.None? <==> forall k :: 0 <= k <= |s| ==> !MatchesAt(s, k)
    ensures r.Some? ==> GroupsFit(r.value)
  {
    match Search(Hits(s), 0)
    case None => None
    case Some(i) => MatchAt(s, i)
  }

  /** Match reports the groups of the leftmost position at which the pattern occurs. */
  lemma MatchIsLeftmost(s: string, i: nat)
    requires i <= |s| && MatchesAt(s, i)
    requires forall k :: 0 <= k < i ==> !MatchesAt(s, k)
    ensures Match(s) == MatchAt(s, i)
  {
  }

  /** No match means no substring of s spells the pattern. */
  lemma NoMatchNoOccurrence(s: string, i: nat, g: Groups, w1: string, w2: string)
    requires Match(s).None?
    requires WellFormed(g, w1, w2)
    ensures !OccursAt(Spelled(g, w1, w2), s, i)
  {
    if OccursAt(Spelled(g, w1, w2), s, i) {
      MatchAtComplete(s, i, g, w1, w2);
      assert MatchesAt(s, i);
    }
  }

  /** A match starts with a digit. */
  lemma NoDigitNoMatch(s: string, k: nat)
    requires k < |s| && !IsDigit(s[k])
    ensures !MatchesAt(s, k)
  {
  }

  lemma OccursInMiddle(p: string, t: string, q: string)
    ensures OccursAt(t, p + t + q, |p|)
  {
    var s := p + t + q;
    assert s[|p|..|p| + |t|] == t;
  }

  /**
   * The search is unanchored: text before the date that holds no digit, and any
   * text after it, leave the match unchanged.
   */
  lemma MatchInText(p: string, g: Groups, w1: string, w2: string, q: string)
    requires WellFormed(g, w1, w2)
    requires forall k :: 0 <= k < |p| ==> !IsDigit(p[k])
    ensures Match(p + Spelled(g, w1, w2) + q) == Some(g)
  {
    var t := Spelled(g, w1, w2);
    var s := p + t + q;
    OccursInMiddle(p, t, q);
    MatchAtComplete(s, |p|, g, w1, w2);
    forall k | 0 <= k < |p|
      ensures !MatchesAt(s, k)
    {
      assert s[k] == p[k];
      NoDigitNoMatch(s, k);
    }
    MatchIsLeftmost(s, |p|);
  }

  /** A string that is exactly one date matches with its own groups. */
  lemma WholeMatch(g: Groups, w1: string, w2: string)
    requires WellFormed(g, w1, w2)
    ensures Match(Spelled(g, w1, w2)) == Some(g)
  {
    MatchInText("", g, w1, w2, "");
    assert "" + Spelled(g, w1, w2) + "" == Spelled(g, w1, w2);
  }
}
