/** The second star: the calibration value of a line is made of its first
    and its last digit token, where a token is a decimal digit or a digit
    spelled out in English ("one" to "nine"). Overlapping tokens such as
    the "eight" and "two" of "eightwo" are both found, because each word has
    a pattern of its own. */
module Two {
  import opened Wrappers
  import opened Text
  import Util

  /** A match [start, end) in a line, as FindAllStringIndex reports it. */
  datatype Span = Span(start: nat, end: nat)

  /** One of the patterns of the matchers list: `\d`, or a literal word. */
  datatype Matcher = DigitClass | Literal(word: string)

  /** The matchers, in the order FindAllStringIndex runs them: the digit
      class, then "one" to "nine", so that Matchers[j] spells j for j >= 1. */
  const Matchers: seq<Matcher> := [DigitClass, Literal("one"), Literal("two"), Literal("three"),
                                   Literal("four"), Literal("five"), Literal("six"), Literal("seven"),
                                   Literal("eight"), Literal("nine")]

  /** The words map: a spelled-out digit to its digit character. */
  const Words: map<string, char> := map["one" := '1', "two" := '2', "three" := '3', "four" := '4',
                                        "five" := '5', "six" := '6', "seven" := '7', "eight" := '8',
                                        "nine" := '9']

  // ---------------------------------------------------------------------
  // Matches of one pattern.

  /** w[k..] occurs in s at p + k, compared one character at a time. */
  predicate SameFrom(s: string, p: nat, w: string, k: nat)
    decreases |w| - k
  {
    k >= |w| || (p + k < |s| && s[p + k] == w[k] && SameFrom(s, p, w, k + 1))
  }

  /** The literal w occurs in s at p. */
  predicate WordAt(s: string, p: nat, w: string)
  {
    SameFrom(s, p, w, 0)
  }

  lemma {:induction false} SameFromChars(s: string, p: nat, w: string, k: nat)
    requires k < |w|
    ensures SameFrom(s, p, w, k) <==> p + |w| <= |s| && forall i :: k <= i < |w| ==> s[p + i] == w[i]
    decreases |w| - k
  {
    if k + 1 < |w| {
      SameFromChars(s, p, w, k + 1);
    }
  }

  /** A non-empty word occurs at p exactly when the slice there is the word. */
  lemma WordAtSlice(s: string, p: nat, w: string)
    requires |w| > 0
    ensures WordAt(s, p, w) <==> p + |w| <= |s| && s[p..p + |w|] == w
  {
    SameFromChars(s, p, w, 0);
    if p + |w| <= |s| && s[p..p + |w|] == w {
      forall i | 0 <= i < |w| ensures s[p + i] == w[i] {
        assert s[p..p + |w|][i] == s[p + i];
      }
    }
  }

  /** sp is a match of the pattern m in s. */
  predicate Occurs(s: string, m: Matcher, sp: Span)
  {
    match m
    case DigitClass => sp.end == sp.start + 1 && sp.start < |s| && IsDigit(s[sp.start])
    case Literal(w) => sp.end == sp.start + |w| && WordAt(s, sp.start, w)
  }

  /** sp is a match of one of the matchers: a token of the line. */
  predicate IsToken(s: string, sp: Span)
  {
    exists j :: 0 <= j < |Matchers| && Occurs(s, Matchers[j], sp)
  }

  ghost predicate HasToken(s: string)
  {
    exists sp :: IsToken(s, sp)
  }

  /** The index of the word of the matchers list that begins with the two
      characters a, b, or 0 when there is none: no two of the nine words
      share their first two letters. */
  function SpelledIndex(a: char, b: char): (j: nat)
    ensures j < |Matchers|
  {
    if a == 'o' && b == 'n' then 1
    else if a == 't' && b == 'w' then 2
    else if a == 't' && b == 'h' then 3
    else if a == 'f' && b == 'o' then 4
    else if a == 'f' && b == 'i' then 5
    else if a == 's' && b == 'i' then 6
    else if a == 's' && b == 'e' then 7
    else if a == 'e' && b == 'i' then 8
    else if a == 'n' && b == 'i' then 9
    else 0
  }

  /** The word Matchers[j] spells, for j from 1 to 9. */
  function Spelled(j: nat): string
  {
    if j == 1 then "one" else if j == 2 then "two" else if j == 3 then "three"
    else if j == 4 then "four" else if j == 5 then "five" else if j == 6 then "six"
    else if j == 7 then "seven" else if j == 8 then "eight" else "nine"
  }

  /** No shift of w by d or more places, short of its length, agrees with w
      on its first two characters: two matches of w never overlap. */
  predicate ShiftsDiffer(w: string, d: nat)
    requires |w| >= 2
    decreases |w| - d
  {
    d >= |w| || ((w[d] != w[0] || (d + 1 < |w| && w[d + 1] != w[1])) && ShiftsDiffer(w, d + 1))
  }

  lemma {:induction false} ShiftDiffers(w: string, d: nat, e: nat)
    requires |w| >= 2 && ShiftsDiffer(w, d) && d <= e < |w|
    ensures w[e] != w[0] || (e + 1 < |w| && w[e + 1] != w[1])
    decreases e - d
  {
    if d < e {
      ShiftDiffers(w, d + 1, e);
    }
  }

  /** What the nine words have in common. */
  predicate SpelledWord(j: nat, w: string)
  {
    && 3 <= |w|
    && !IsDigit(w[0])
    && SpelledIndex(w[0], w[1]) == j
    && ShiftsDiffer(w, 1)
    && w in Words
    && IsDigit(Words[w])
    && DigitValue(Words[w]) == j
  }

  /** Matchers[j] spells j, and the words map sends it to the digit j. */
  lemma MatcherFacts(j: nat)
    requires 1 <= j < |Matchers|
    ensures Matchers[j] == Literal(Spelled(j)) && SpelledWord(j, Spelled(j))
  {
    assert j == 1 || j == 2 || j == 3 || j == 4 || j == 5 || j == 6 || j == 7 || j == 8 || j == 9;
  }

  /** Every key of the words map is one of the matchers' words. */
  lemma WordsAreMatchers(w: string)
    requires w in Words
    ensures exists j :: 1 <= j < |Matchers| && Matchers[j] == Literal(w)
  {
    if w == "one" { assert Matchers[1] == Literal(w); }
    else if w == "two" { assert Matchers[2] == Literal(w); }
    else if w == "three" { assert Matchers[3] == Literal(w); }
    else if w == "four" { assert Matchers[4] == Literal(w); }
    else if w == "five" { assert Matchers[5] == Literal(w); }
    else if w == "six" { assert Matchers[6] == Literal(w); }
    else if w == "seven" { assert Matchers[7] == Literal(w); }
    else if w == "eight" { assert Matchers[8] == Literal(w); }
    else { assert Matchers[9] == Literal(w); }
  }

  /** `\d`.FindAllStringIndex from i: a one-character span per digit. */
  function DigitSpans(s: string, i: nat): seq<Span>
    requires i <= |s|
    decreases |s| - i
  {
    if i == |s| then []
    else if IsDigit(s[i]) then [Span(i, i + 1)] + DigitSpans(s, i + 1)
    else DigitSpans(s, i + 1)
  }

  /** FindAllStringIndex of a literal word from i: leftmost matches, the
      search resuming at the end of each match. */
  function WordSpans(s: string, w: string, i: nat): seq<Span>
    requires |w| > 0
    decreases |s| - i
  {
    if i + |w| > |s| then []
    else if WordAt(s, i, w) then [Span(i, i + |w|)] + WordSpans(s, w, i + |w|)
    else WordSpans(s, w, i + 1)
  }

  /** The digit scanner reports every digit at or after i and nothing else. */
  lemma {:induction false} DigitSpansExact(s: string, i: nat)
    requires i <= |s|
    ensures forall sp :: sp in DigitSpans(s, i) <==> i <= sp.start && Occurs(s, DigitClass, sp)
    decreases |s| - i
  {
    if i < |s| {
      DigitSpansExact(s, i + 1);
    }
  }

  /** The word scanner reports every occurrence of w at or after i, although
      it skips past each match: occurrences of such a word never overlap. */
  lemma {:induction false} WordSpansExact(s: string, w: string, i: nat)
    requires |w| >= 2 && ShiftsDiffer(w, 1)
    ensures forall sp :: sp in WordSpans(s, w, i) <==> i <= sp.start && Occurs(s, Literal(w), sp)
    decreases |s| - i
  {
    if i + |w| > |s| {
      forall sp: Span | i <= sp.start && Occurs(s, Literal(w), sp) ensures false {
        SameFromChars(s, sp.start, w, 0);
      }
    } else if WordAt(s, i, w) {
      WordSpansExact(s, w, i + |w|);
      forall sp: Span | i < sp.start < i + |w| && Occurs(s, Literal(w), sp) ensures false {
        var p, d := sp.start, sp.start - i;
        SameFromChars(s, i, w, 0);
        SameFromChars(s, p, w, 0);
        ShiftDiffers(w, 1, d);
      }
    } else {
      WordSpansExact(s, w, i + 1);
    }
  }

  /** re.FindAllStringIndex(s, -1) for one matcher. */
  function FindAll(s: string, m: Matcher): seq<Span>
    requires m.Literal? ==> |m.word| > 0
  {
    match m
    case DigitClass => DigitSpans(s, 0)
    case Literal(w) => WordSpans(s, w, 0)
  }

  /** The matches of the first k matchers, appended in matcher order. */
  function Collect(s: string, k: nat): seq<Span>
    requires k <= |Matchers|
  {
    if k == 0 then []
    else
      assert Matchers[k - 1].Literal? ==> |Matchers[k - 1].word| > 0 by {
        if k - 1 >= 1 {
          MatcherFacts(k - 1);
        }
      }
      Collect(s, k - 1) + FindAll(s, Matchers[k - 1])
  }

  lemma {:induction false} CollectExact(s: string, k: nat)
    requires k <= |Matchers|
    ensures forall sp :: sp in Collect(s, k) <==> exists j :: 0 <= j < k && Occurs(s, Matchers[j], sp)
  {
    if k > 0 {
      CollectExact(s, k - 1);
      if k - 1 == 0 {
        DigitSpansExact(s, 0);
      } else {
        MatcherFacts(k - 1);
        WordSpansExact(s, Matchers[k - 1].word, 0);
      }
    }
  }

  // ---------------------------------------------------------------------
  // The merge: slices.SortStableFunc by start, then end.

  predicate SpanLe(a: Span, b: Span)
  {
    a.start < b.start || (a.start == b.start && a.end <= b.end)
  }

  predicate SpansSorted(r: seq<Span>)
  {
    forall i, j :: 0 <= i < j < |r| ==> SpanLe(r[i], r[j])
  }

  /** Inserts x before the first element it does not sort after. */
  function InsertSpan(x: Span, r: seq<Span>): seq<Span>
  {
    if r == [] || SpanLe(x, r[0]) then [x] + r else [r[0]] + InsertSpan(x, r[1..])
  }

  /** The library's stable sort, as insertion sort. Spans that compare
      equal are equal, so stability does not show in the result. */
  function SortSpans(r: seq<Span>): seq<Span>
  {
    if r == [] then [] else InsertSpan(r[|r| - 1], SortSpans(r[..|r| - 1]))
  }

  lemma {:induction false} InsertSpanSorted(x: Span, r: seq<Span>)
    requires SpansSorted(r)
    ensures |InsertSpan(x, r)| == |r| + 1
    ensures InsertSpan(x, r)[0] == if r != [] && !SpanLe(x, r[0]) then r[0] else x
    ensures SpansSorted(InsertSpan(x, r))
  {
    if r != [] && !SpanLe(x, r[0]) {
      var t := InsertSpan(x, r[1..]);
      InsertSpanSorted(x, r[1..]);
      var u := [r[0]] + t;
      assert InsertSpan(x, r) == u;
      assert SpanLe(r[0], t[0]);
      forall i, j | 0 <= i < j < |u| ensures SpanLe(u[i], u[j]) {
        if i == 0 && j > 1 {
          assert SpanLe(t[0], t[j - 1]);
        }
      }
    }
  }

  lemma {:induction false} InsertSpanElements(x: Span, r: seq<Span>)
    ensures multiset(InsertSpan(x, r)) == multiset(r) + multiset{x}
  {
    if r != [] && !SpanLe(x, r[0]) {
      InsertSpanElements(x, r[1..]);
      assert r == [r[0]] + r[1..];
    }
  }

  /** The sort orders by (start, end) and keeps every span. */
  lemma {:induction false} SortSpansFacts(r: seq<Span>)
    ensures SpansSorted(SortSpans(r))
    ensures multiset(SortSpans(r)) == multiset(r)
  {
    if r != [] {
      SortSpansFacts(r[..|r| - 1]);
      InsertSpanSorted(r[|r| - 1], SortSpans(r[..|r| - 1]));
      InsertSpanElements(r[|r| - 1], SortSpans(r[..|r| - 1]));
      assert r == r[..|r| - 1] + [r[|r| - 1]];
    }
  }

  /** The merged matches of a line. */
  function Matches(s: string): seq<Span>
  {
    SortSpans(Collect(s, |Matchers|))
  }

  /** The merged list is sorted by (start, end) and lists exactly the tokens
      of the line: every match of every pattern, overlapping ones included. */
  lemma MatchesExact(s: string)
    ensures SpansSorted(Matches(s))
    ensures forall sp :: sp in Matches(s) <==> IsToken(s, sp)
  {
    CollectExact(s, |Matchers|);
    var c := Collect(s, |Matchers|);
    SortSpansFacts(c);
    forall sp ensures sp in Matches(s) <==> sp in c {
      assert sp in Matches(s) <==> sp in multiset(Matches(s));
    }
  }

  /** multiRegexp.FindAllStringIndex: every matcher's matches appended in
      turn, then sorted. */
  method FindAllStringIndex(s: string) returns (result: seq<Span>)
    ensures result == Matches(s)
    ensures SpansSorted(result)
    ensures forall sp :: sp in result <==> IsToken(s, sp)
  {
    result := [];
    for k := 0 to |Matchers|
      invariant result == Collect(s, k)
    {
      if k >= 1 {
        MatcherFacts(k);
      }
      result := result + FindAll(s, Matchers[k]);
    }
    result := SortSpans(result);
    MatchesExact(s);
  }

  // ---------------------------------------------------------------------
  // Tokens and their digits.

  /** A match of the word matcher j is the word Spelled(j). */
  lemma WordTokenFacts(s: string, sp: Span, j: nat)
    requires 1 <= j < |Matchers| && Occurs(s, Matchers[j], sp)
    ensures 3 <= sp.end - sp.start && sp.end <= |s|
    ensures s[sp.start..sp.end] == Spelled(j) && SpelledWord(j, Spelled(j))
  {
    MatcherFacts(j);
    WordAtSlice(s, sp.start, Spelled(j));
  }

  lemma TokenFacts(s: string, sp: Span)
    requires IsToken(s, sp)
    ensures sp.start < sp.end <= |s|
    ensures sp.end - sp.start == 1 ==> IsDigit(s[sp.start])
    ensures sp.end - sp.start > 1 ==> s[sp.start..sp.end] in Words && IsDigit(Words[s[sp.start..sp.end]])
  {
    var j :| 0 <= j < |Matchers| && Occurs(s, Matchers[j], sp);
    if j >= 1 {
      WordTokenFacts(s, sp, j);
    }
  }

  /** The digit a token stands for: a one-character token is the digit
      itself, a longer one goes through the words map. */
  function TokenDigit(s: string, sp: Span): (c: char)
    requires IsToken(s, sp)
    ensures IsDigit(c)
  {
    TokenFacts(s, sp);
    if sp.end - sp.start > 1 then Words[s[sp.start..sp.end]] else s[sp.start]
  }

  /** A digit stands for itself and the word Matchers[j] for j. */
  lemma TokenDigitOf(s: string, sp: Span, j: nat)
    requires j < |Matchers| && Occurs(s, Matchers[j], sp)
    ensures DigitValue(TokenDigit(s, sp)) == if j == 0 then DigitValue(s[sp.start]) else j
  {
    if j >= 1 {
      MatcherFacts(j);
      WordAtSlice(s, sp.start, Matchers[j].word);
    }
  }

  /** line.Value: the digits of the first and the last token read as one
      two-digit number, or 0 for a line without a token. */
  function LineValue(l: string): (v: nat)
    ensures v <= 99
  {
    var idxs := Matches(l);
    var n := |idxs|;
    MatchesExact(l);
    if n == 0 then 0
    else
      var a, b := TokenDigit(l, idxs[0]), TokenDigit(l, idxs[n - 1]);
      AtoiTwoDigits(a, b);
      Atoi([a, b]).value
  }

  /** f is the first token of l: no token sorts before it. */
  ghost predicate IsFirstToken(l: string, f: Span)
  {
    IsToken(l, f) && forall sp :: IsToken(l, sp) ==> SpanLe(f, sp)
  }

  /** g is the last token of l: no token sorts after it. */
  ghost predicate IsLastToken(l: string, g: Span)
  {
    IsToken(l, g) && forall sp :: IsToken(l, sp) ==> SpanLe(sp, g)
  }

  /** The merged list is empty exactly for a line without a token, and
      otherwise it begins with the first token and ends with the last. */
  lemma MatchesEnds(l: string)
    ensures |Matches(l)| == 0 <==> !HasToken(l)
    ensures |Matches(l)| > 0 ==> IsFirstToken(l, Matches(l)[0]) && IsLastToken(l, Matches(l)[|Matches(l)| - 1])
  {
    var idxs := Matches(l);
    var n := |idxs|;
    MatchesExact(l);
    if n > 0 {
      assert IsToken(l, idxs[0]);
      forall sp | IsToken(l, sp) ensures SpanLe(idxs[0], sp) && SpanLe(sp, idxs[n - 1]) {
        assert sp in idxs;
        var i :| 0 <= i < n && idxs[i] == sp;
      }
    }
  }

  /** LineValue reads the digits of the two ends of the merged list. */
  lemma LineValueOfEnds(l: string)
    ensures |Matches(l)| == 0 ==> LineValue(l) == 0
    ensures |Matches(l)| > 0 ==>
              && IsToken(l, Matches(l)[0]) && IsToken(l, Matches(l)[|Matches(l)| - 1])
              && LineValue(l) == 10 * DigitValue(TokenDigit(l, Matches(l)[0]))
                                 + DigitValue(TokenDigit(l, Matches(l)[|Matches(l)| - 1]))
  {
    var idxs := Matches(l);
    var n := |idxs|;
    MatchesExact(l);
    if n > 0 {
      AtoiTwoDigits(TokenDigit(l, idxs[0]), TokenDigit(l, idxs[n - 1]));
    }
  }

  /** A line without a digit and without a spelled-out digit is worth 0. */
  lemma LineValueNoToken(l: string)
    requires !HasToken(l)
    ensures LineValue(l) == 0
  {
    MatchesEnds(l);
    LineValueOfEnds(l);
  }

  /** Otherwise it is ten times the digit of the first token plus the digit
      of the last one. */
  lemma LineValueFirstLast(l: string, f: Span, g: Span)
    requires IsFirstToken(l, f) && IsLastToken(l, g)
    ensures LineValue(l) == 10 * DigitValue(TokenDigit(l, f)) + DigitValue(TokenDigit(l, g))
  {
    MatchesEnds(l);
    LineValueOfEnds(l);
    var idxs := Matches(l);
    var n := |idxs|;
    assert SpanLe(idxs[0], f) && SpanLe(f, idxs[0]);
    assert SpanLe(g, idxs[n - 1]) && SpanLe(idxs[n - 1], g);
  }

  /** A line with a token is worth 11 to 99 when none of its characters is
      the digit '0': spelled-out digits are 1 to 9. */
  lemma LineValueRange(l: string)
    requires HasToken(l)
    ensures (forall k :: 0 <= k < |l| ==> l[k] != '0') ==> 11 <= LineValue(l)
  {
    MatchesEnds(l);
    LineValueOfEnds(l);
    var idxs := Matches(l);
    var f, g := idxs[0], idxs[|idxs| - 1];
    var jf :| 0 <= jf < |Matchers| && Occurs(l, Matchers[jf], f);
    var jg :| 0 <= jg < |Matchers| && Occurs(l, Matchers[jg], g);
    TokenDigitOf(l, f, jf);
    TokenDigitOf(l, g, jg);
  }

  // ---------------------------------------------------------------------
  // A reference reading: scan the line from the left for the first token
  // and from the right for the last one, and take a word's value from its
  // place in the matchers list rather than from the words map.

  /** A token and the index of the matcher it matches. */
  datatype Token = Token(span: Span, matcher: nat)

  predicate IsTokenOf(s: string, t: Token)
  {
    t.matcher < |Matchers| && Occurs(s, Matchers[t.matcher], t.span)
  }

  /** The token that starts at p, if any. */
  function TokenAt(s: string, p: nat): Option<Token>
  {
    if p >= |s| then None
    else if IsDigit(s[p]) then Some(Token(Span(p, p + 1), 0))
    else if p + 1 >= |s| then None
    else
      var j := SpelledIndex(s[p], s[p + 1]);
      if j >= 1 && WordAt(s, p, Spelled(j)) then
        Some(Token(Span(p, p + |Spelled(j)|), j))
      else None
  }

  /** TokenAt finds the one token that starts at p: two tokens never start
      at the same position. */
  lemma TokenAtSound(s: string, p: nat)
    ensures TokenAt(s, p).Some? ==> IsTokenOf(s, TokenAt(s, p).value) && TokenAt(s, p).value.span.start == p
  {
    if TokenAt(s, p).Some? {
      var j := TokenAt(s, p).value.matcher;
      if j >= 1 {
        MatcherFacts(j);
      }
    }
  }

  /** A match of matcher j is what TokenAt finds where it starts. */
  lemma TokenAtComplete(s: string, j: nat, sp: Span)
    requires j < |Matchers| && Occurs(s, Matchers[j], sp)
    ensures TokenAt(s, sp.start) == Some(Token(sp, j))
  {
    if j >= 1 {
      var p := sp.start;
      MatcherFacts(j);
      SameFromChars(s, p, Spelled(j), 0);
      assert s[p] == Spelled(j)[0] && s[p + 1] == Spelled(j)[1];
    }
  }

  /** Every token is the one TokenAt finds at its start. */
  lemma TokenAtIs(s: string, sp: Span)
    requires IsToken(s, sp)
    ensures TokenAt(s, sp.start).Some? && TokenAt(s, sp.start).value.span == sp
  {
    var j :| 0 <= j < |Matchers| && Occurs(s, Matchers[j], sp);
    TokenAtComplete(s, j, sp);
  }

  /** Two tokens that start together are the same token. */
  lemma TokenUnique(s: string, a: Span, b: Span)
    requires IsToken(s, a) && IsToken(s, b) && a.start == b.start
    ensures a == b
  {
    TokenAtIs(s, a);
    TokenAtIs(s, b);
  }

  /** The first token at or after p. */
  function FirstFrom(s: string, p: nat): Option<Token>
    decreases |s| - p
  {
    if p >= |s| then None
    else if TokenAt(s, p).Some? then TokenAt(s, p)
    else FirstFrom(s, p + 1)
  }

  /** The last token that starts before p. */
  function LastBefore(s: string, p: nat): Option<Token>
  {
    if p == 0 then None
    else if TokenAt(s, p - 1).Some? then TokenAt(s, p - 1)
    else LastBefore(s, p - 1)
  }

  /** r is a token at or after p that sorts before every token at or after p. */
  ghost predicate FirstFound(s: string, p: nat, r: Option<Token>)
  {
    match r
    case None => forall sp :: IsToken(s, sp) ==> sp.start < p
    case Some(t) => IsTokenOf(s, t) && p <= t.span.start
                    && forall sp :: IsToken(s, sp) && p <= sp.start ==> SpanLe(t.span, sp)
  }

  /** r is a token before p that sorts after every token before p. */
  ghost predicate LastFound(s: string, p: nat, r: Option<Token>)
  {
    match r
    case None => forall sp :: IsToken(s, sp) ==> sp.start >= p
    case Some(t) => IsTokenOf(s, t) && t.span.start < p
                    && forall sp :: IsToken(s, sp) && sp.start < p ==> SpanLe(sp, t.span)
  }

  lemma FirstFoundHere(s: string, p: nat)
    requires TokenAt(s, p).Some?
    ensures FirstFound(s, p, TokenAt(s, p))
  {
    TokenAtSound(s, p);
    var t := TokenAt(s, p).value;
    forall sp | IsToken(s, sp) && p <= sp.start ensures SpanLe(t.span, sp) {
      TokenAtIs(s, sp);
    }
  }

  lemma FirstFoundStep(s: string, p: nat, r: Option<Token>)
    requires TokenAt(s, p).None? && FirstFound(s, p + 1, r)
    ensures FirstFound(s, p, r)
  {
    forall sp | IsToken(s, sp) ensures sp.start != p {
      TokenAtIs(s, sp);
    }
  }

  lemma FirstFoundEnd(s: string, p: nat)
    requires p >= |s|
    ensures FirstFound(s, p, None)
  {
    forall sp | IsToken(s, sp) ensures sp.start < p {
      TokenFacts(s, sp);
    }
  }

  lemma {:induction false} FirstFromFound(s: string, p: nat)
    ensures FirstFound(s, p, FirstFrom(s, p))
    decreases |s| - p
  {
    if p >= |s| {
      FirstFoundEnd(s, p);
    } else if TokenAt(s, p).Some? {
      FirstFoundHere(s, p);
    } else {
      FirstFromFound(s, p + 1);
      FirstFoundStep(s, p, FirstFrom(s, p + 1));
    }
  }

  lemma LastFoundHere(s: string, p: nat)
    requires p > 0 && TokenAt(s, p - 1).Some?
    ensures LastFound(s, p, TokenAt(s, p - 1))
  {
    TokenAtSound(s, p - 1);
    var t := TokenAt(s, p - 1).value;
    forall sp | IsToken(s, sp) && sp.start < p ensures SpanLe(sp, t.span) {
      TokenAtIs(s, sp);
    }
  }

  lemma LastFoundStep(s: string, p: nat, r: Option<Token>)
    requires p > 0 && TokenAt(s, p - 1).None? && LastFound(s, p - 1, r)
    ensures LastFound(s, p, r)
  {
    forall sp | IsToken(s, sp) ensures sp.start != p - 1 {
      TokenAtIs(s, sp);
    }
  }

  lemma {:induction false} LastBeforeFound(s: string, p: nat)
    ensures LastFound(s, p, LastBefore(s, p))
  {
    if p > 0 {
      if TokenAt(s, p - 1).Some? {
        LastFoundHere(s, p);
      } else {
        LastBeforeFound(s, p - 1);
        LastFoundStep(s, p, LastBefore(s, p - 1));
      }
    }
  }

  /** What a token is worth: a digit its value, Matchers[j] the number j. */
  function TokenNumber(s: string, t: Token): nat
  {
    if t.matcher == 0 && t.span.start < |s| && IsDigit(s[t.span.start]) then DigitValue(s[t.span.start])
    else t.matcher
  }

  /** The value of the line by the reference reading. */
  function ScanValue(s: string): nat
  {
    var first, last := FirstFrom(s, 0), LastBefore(s, |s|);
    if first.Some? && last.Some? then 10 * TokenNumber(s, first.value) + TokenNumber(s, last.value) else 0
  }

  /** line.Value agrees with the reference reading on every line: the sorted
      merge picks the leftmost and the rightmost token, and the words map
      sends each word to the digit the matchers list spells. */
  lemma LineValueByScan(s: string)
    ensures LineValue(s) == ScanValue(s)
  {
    FirstFromFound(s, 0);
    LastBeforeFound(s, |s|);
    var first, last := FirstFrom(s, 0), LastBefore(s, |s|);
    if first.None? {
      assert !HasToken(s);
      LineValueNoToken(s);
    } else {
      var f := first.value;
      assert IsToken(s, f.span);
      TokenFacts(s, f.span);
      var g := last.value;
      assert IsFirstToken(s, f.span);
      assert IsToken(s, g.span);
      assert IsLastToken(s, g.span);
      LineValueFirstLast(s, f.span, g.span);
      TokenDigitOf(s, f.span, f.matcher);
      TokenDigitOf(s, g.span, g.matcher);
    }
  }

  // The line examples of the second star. The two ends of each line are
  // found by the reference reading, and LineValueByScan carries its value
  // over to line.Value.

  lemma ExampleZero()
    ensures LineValue("") == 0
  {
    LineValueByScan("");
  }

  lemma EndsSingle()
    ensures FirstFrom("treb7uchet", 0) == Some(Token(Span(4, 5), 0))
    ensures LastBefore("treb7uchet", 10) == Some(Token(Span(4, 5), 0))
  {
  }

  lemma ExampleSingle()
    ensures LineValue("treb7uchet") == 77
  {
    EndsSingle();
    LineValueByScan("treb7uchet");
  }

  lemma EndsMany()
    ensures FirstFrom("a1b2c3d4e5f", 0) == Some(Token(Span(1, 2), 0))
    ensures LastBefore("a1b2c3d4e5f", 11) == Some(Token(Span(9, 10), 0))
  {
  }

  lemma ExampleMany()
    ensures LineValue("a1b2c3d4e5f") == 15
  {
    EndsMany();
    LineValueByScan("a1b2c3d4e5f");
  }

  lemma EndsMixed()
    ensures FirstFrom("two1nine", 0) == Some(Token(Span(0, 3), 2))
    ensures LastBefore("two1nine", 8) == Some(Token(Span(4, 8), 9))
  {
  }

  lemma ExampleMixed()
    ensures LineValue("two1nine") == 29
  {
    EndsMixed();
    LineValueByScan("two1nine");
  }

  lemma EndsSpelled()
    ensures FirstFrom("eightwothree", 0) == Some(Token(Span(0, 5), 8))
    ensures LastBefore("eightwothree", 12) == Some(Token(Span(7, 12), 3))
  {
  }

  lemma ExampleSpelled()
    ensures LineValue("eightwothree") == 83
  {
    EndsSpelled();
    LineValueByScan("eightwothree");
  }

  lemma FirstGarbage()
    ensures FirstFrom("abcone2threexyz", 0) == Some(Token(Span(3, 6), 1))
  {
  }

  lemma LastGarbage()
    ensures LastBefore("abcone2threexyz", 15) == Some(Token(Span(7, 12), 3))
  {
    assert LastBefore("abcone2threexyz", 11) == Some(Token(Span(7, 12), 3));
  }

  lemma ExampleGarbage()
    ensures LineValue("abcone2threexyz") == 13
  {
    FirstGarbage();
    LastGarbage();
    LineValueByScan("abcone2threexyz");
  }

  lemma EndsTeens()
    ensures FirstFrom("7pqrstsixteen", 0) == Some(Token(Span(0, 1), 0))
    ensures LastBefore("7pqrstsixteen", 13) == Some(Token(Span(6, 9), 6))
  {
  }

  lemma ExampleTeens()
    ensures LineValue("7pqrstsixteen") == 76
  {
    EndsTeens();
    LineValueByScan("7pqrstsixteen");
  }

  lemma EndsOverlaps()
    ensures FirstFrom("2zoneight", 0) == Some(Token(Span(0, 1), 0))
    ensures LastBefore("2zoneight", 9) == Some(Token(Span(4, 9), 8))
  {
  }

  lemma ExampleOverlaps()
    ensures LineValue("2zoneight") == 28
  {
    EndsOverlaps();
    LineValueByScan("2zoneight");
  }

  lemma EndsDoc4()
    ensures FirstFrom("xtwone3four", 0) == Some(Token(Span(1, 4), 2))
    ensures LastBefore("xtwone3four", 11) == Some(Token(Span(7, 11), 4))
  {
  }

  lemma ExampleDoc4()
    ensures LineValue("xtwone3four") == 24
  {
    EndsDoc4();
    LineValueByScan("xtwone3four");
  }

  lemma EndsDoc5()
    ensures FirstFrom("4nineeightseven2", 0) == Some(Token(Span(0, 1), 0))
    ensures LastBefore("4nineeightseven2", 16) == Some(Token(Span(15, 16), 0))
  {
  }

  lemma ExampleDoc5()
    ensures LineValue("4nineeightseven2") == 42
  {
    EndsDoc5();
    LineValueByScan("4nineeightseven2");
  }

  lemma EndsDoc6()
    ensures FirstFrom("zoneight234", 0) == Some(Token(Span(1, 4), 1))
    ensures LastBefore("zoneight234", 11) == Some(Token(Span(10, 11), 0))
  {
  }

  lemma ExampleDoc6()
    ensures LineValue("zoneight234") == 14
  {
    EndsDoc6();
    LineValueByScan("zoneight234");
  }

  // ---------------------------------------------------------------------
  // The document.

  /** The values of the lines of a document, in order. */
  function LineValues(doc: seq<string>): (vs: seq<int>)
    ensures |vs| == |doc|
  {
    if doc == [] then [] else LineValues(doc[..|doc| - 1]) + [LineValue(doc[|doc| - 1])]
  }

  /** One more line adds its value to the sum. */
  lemma TotalOfLines(doc: seq<string>, k: nat)
    requires k < |doc|
    ensures Util.Total(LineValues(doc[..k + 1])) == Util.Total(LineValues(doc[..k])) + LineValue(doc[k])
  {
    assert doc[..k + 1][..k] == doc[..k];
    Util.TotalSnoc(LineValues(doc[..k]), LineValue(doc[k]));
  }

  /** FromDocument: the sum of the values of the lines. */
  method FromDocument(doc: seq<string>) returns (value: int)
    ensures value == Util.Total(LineValues(doc))
  {
    value := 0;
    for k := 0 to |doc|
      invariant value == Util.Total(LineValues(doc[..k]))
    {
      TotalOfLines(doc, k);
      value := value + LineValue(doc[k]);
    }
    assert doc[..|doc|] == doc;
  }

  /** The sum over a document lies between 0 and 99 per line. */
  lemma {:induction false} DocumentValueBounds(doc: seq<string>)
    ensures 0 <= Util.Total(LineValues(doc)) <= 99 * |doc|
    decreases |doc|
  {
    if doc != [] {
      var n := |doc| - 1;
      DocumentValueBounds(doc[..n]);
      assert doc[..n + 1] == doc;
      TotalOfLines(doc, n);
    }
  }

  /** The values of two documents one after the other. */
  lemma {:induction false} LineValuesConcat(a: seq<string>, b: seq<string>)
    ensures LineValues(a + b) == LineValues(a) + LineValues(b)
    decreases |b|
  {
    if b == [] {
      assert a + b == a;
    } else {
      var b' := b[..|b| - 1];
      LineValuesConcat(a, b');
      assert (a + b)[..|a + b| - 1] == a + b';
    }
  }

  /** A document sums to the sum of any list that agrees with its line values. */
  lemma {:induction false} TotalOfValues(doc: seq<string>, vs: seq<int>)
    requires |vs| == |doc|
    requires forall i :: 0 <= i < |doc| ==> LineValue(doc[i]) == vs[i]
    ensures Util.Total(LineValues(doc)) == Util.Total(vs)
    decreases |doc|
  {
    if doc != [] {
      var n := |doc| - 1;
      TotalOfValues(doc[..n], vs[..n]);
      assert vs[..n] + [vs[n]] == vs;
      Util.TotalSnoc(LineValues(doc[..n]), LineValue(doc[n]));
      Util.TotalSnoc(vs[..n], vs[n]);
    }
  }

  /** The document example of the second star adds up to 281. */
  lemma DocumentExample()
    ensures Util.Total(LineValues(["two1nine", "eightwothree", "abcone2threexyz", "xtwone3four",
                                   "4nineeightseven2", "zoneight234", "7pqrstsixteen"])) == 281
  {
    var doc := ["two1nine", "eightwothree", "abcone2threexyz", "xtwone3four",
                "4nineeightseven2", "zoneight234", "7pqrstsixteen"];
    var vs := [29, 83, 13, 24, 42, 14, 76];
    forall i | 0 <= i < |doc|
      ensures LineValue(doc[i]) == vs[i]
    {
      if i == 0 { ExampleMixed(); }
      else if i == 1 { ExampleSpelled(); }
      else if i == 2 { ExampleGarbage(); }
      else if i == 3 { ExampleDoc4(); }
      else if i == 4 { ExampleDoc5(); }
      else if i == 5 { ExampleDoc6(); }
      else { ExampleTeens(); }
    }
    TotalOfValues(doc, vs);
    ExampleValuesTotal();
  }

  lemma ExampleValuesTotal()
    ensures Util.Total([29, 83, 13, 24, 42, 14, 76]) == 281
  {
    var vs := [29, 83, 13, 24, 42, 14, 76];
    assert vs[..0] == [];
    Util.TotalSnoc(vs[..0], 29);
    Util.TotalSnoc(vs[..1], 83);
    Util.TotalSnoc(vs[..2], 13);
    Util.TotalSnoc(vs[..3], 24);
    Util.TotalSnoc(vs[..4], 42);
    Util.TotalSnoc(vs[..5], 14);
    Util.TotalSnoc(vs[..6], 76);
    assert vs[..0] + [29] == vs[..1];
    assert vs[..1] + [83] == vs[..2];
    assert vs[..2] + [13] == vs[..3];
    assert vs[..3] + [24] == vs[..4];
    assert vs[..4] + [42] == vs[..5];
    assert vs[..5] + [14] == vs[..6];
    assert vs[..6] + [76] == vs;
  }
}
