/** Character-level scanners that stand in for the regular expressions and
    the strconv/strings helpers the solvers use. A line is a `string` whose
    characters stand for the bytes of the Go string. */
module Text {
  import opened Wrappers

  predicate IsDigit(c: char) { '0' <= c <= '9' }

  /** `\s` in RE2 syntax: tab, newline, form feed, carriage return, space. */
  predicate IsSpace(c: char) { c == ' ' || c == '\t' || c == '\n' || c as int == 12 || c == '\r' }

  predicate AllDigits(s: string) { forall i :: 0 <= i < |s| ==> IsDigit(s[i]) }

  function DigitValue(c: char): (d: nat)
    requires IsDigit(c)
    ensures d < 10
  {
    (c as int - '0' as int) as nat
  }

  function DigitChar(d: nat): (c: char)
    requires d < 10
    ensures IsDigit(c) && DigitValue(c) == d
  {
    (d + '0' as int) as char
  }

  lemma DigitCharOfValue(c: char)
    requires IsDigit(c)
    ensures DigitChar(DigitValue(c)) == c
  {
  }

  /** The value of a string of decimal digits, most significant first. */
  function DecimalValue(s: string): nat
    requires AllDigits(s)
  {
    if s == [] then 0 else DecimalValue(s[..|s| - 1]) * 10 + DigitValue(s[|s| - 1])
  }

  /** Decimal rendering of a natural number, without leading zeros. */
  function NatToString(n: nat): (s: string)
    ensures |s| >= 1 && AllDigits(s)
  {
    if n < 10 then [DigitChar(n)] else NatToString(n / 10) + [DigitChar(n % 10)]
  }

  /** strconv.Itoa: a minus sign for negative numbers, then the digits. */
  function Itoa(n: int): string
  {
    if n < 0 then "-" + NatToString(-n) else NatToString(n)
  }

  /** strconv.Atoi over unbounded integers: an optional sign, then one or
      more decimal digits and nothing else; anything else is a syntax error. */
  function Atoi(s: string): Option<int>
  {
    if |s| >= 1 && (s[0] == '+' || s[0] == '-') then
      if |s| >= 2 && AllDigits(s[1..]) then
        var v: int := DecimalValue(s[1..]);
        Some(if s[0] == '-' then -v else v)
      else None
    else if |s| >= 1 && AllDigits(s) then Some(DecimalValue(s))
    else None
  }

  lemma {:induction false} DecimalValueOfNatToString(n: nat)
    ensures DecimalValue(NatToString(n)) == n
  {
    var s := NatToString(n);
    if n >= 10 {
      DecimalValueOfNatToString(n / 10);
      assert s[..|s| - 1] == NatToString(n / 10);
    }
  }

  lemma {:induction false} DecimalValuePositive(s: string)
    requires AllDigits(s) && |s| >= 1 && s[0] != '0'
    ensures DecimalValue(s) >= 1
  {
    if |s| > 1 {
      DecimalValuePositive(s[..|s| - 1]);
    }
  }

  /** Printing the value of a digit string gives the string back exactly
      when it has no leading zero. */
  lemma {:induction false} NatToStringOfDecimalValue(s: string)
    requires AllDigits(s) && |s| >= 1
    requires s[0] == '0' ==> |s| == 1
    ensures NatToString(DecimalValue(s)) == s
  {
    var p := s[..|s| - 1];
    if |s| == 1 {
      assert p == [];
      DigitCharOfValue(s[0]);
    } else {
      DecimalValuePositive(p);
      NatToStringOfDecimalValue(p);
      var v := DecimalValue(s);
      assert v / 10 == DecimalValue(p) && v % 10 == DigitValue(s[|s| - 1]);
      DigitCharOfValue(s[|s| - 1]);
      assert s == p + [s[|s| - 1]];
    }
  }

  /** Two decimal digits read as a two-digit number. */
  lemma AtoiTwoDigits(a: char, b: char)
    requires IsDigit(a) && IsDigit(b)
    ensures Atoi([a, b]) == Some(10 * DigitValue(a) + DigitValue(b))
  {
    var s := [a, b];
    assert s[0] == a && s[1] == b && s[..1] == [a] && [a][..0] == [];
    assert AllDigits(s);
    assert DecimalValue([a]) == DigitValue(a);
    assert DecimalValue(s) == 10 * DigitValue(a) + DigitValue(b);
  }

  lemma AtoiOfNatToString(n: nat)
    ensures Atoi(NatToString(n)) == Some(n)
  {
    var s := NatToString(n);
    assert IsDigit(s[0]);
    DecimalValueOfNatToString(n);
  }

  /** Round trip of the two conversions: Atoi(Itoa(n)) == n. */
  lemma AtoiOfItoa(n: int)
    ensures Atoi(Itoa(n)) == Some(n)
  {
    if n < 0 {
      var s := Itoa(n);
      assert s[0] == '-' && s[1..] == NatToString(-n);
      DecimalValueOfNatToString(-n);
      assert DecimalValue(s[1..]) == -n;
    } else {
      AtoiOfNatToString(n);
    }
  }

  // ---------------------------------------------------------------------
  // Maximal runs of digits: the matches of the regular expression `\d+`.

  /** End (exclusive) of the digits that start at i. */
  function RunEnd(s: string, i: nat): (e: nat)
    requires i <= |s|
    ensures i <= e <= |s|
    ensures forall k :: i <= k < e ==> IsDigit(s[k])
    ensures e == |s| || !IsDigit(s[e])
    decreases |s| - i
  {
    if i < |s| && IsDigit(s[i]) then RunEnd(s, i + 1) else i
  }

  /** Start of the digits that end just before i. */
  function RunStart(s: string, i: nat): (b: nat)
    requires i <= |s|
    ensures b <= i
    ensures forall k :: b <= k < i ==> IsDigit(s[k])
    ensures b == 0 || !IsDigit(s[b - 1])
  {
    if i > 0 && IsDigit(s[i - 1]) then RunStart(s, i - 1) else i
  }

  /** The text of the maximal digit run through position i. */
  function RunText(s: string, i: nat): (t: string)
    requires i < |s| && IsDigit(s[i])
    ensures AllDigits(t) && |t| >= 1
  {
    var b, e := RunStart(s, i), RunEnd(s, i);
    assert forall k :: b <= k < e ==> IsDigit(s[k]) by {
      forall k | b <= k < e ensures IsDigit(s[k]) {
        if k >= i {
        }
      }
    }
    s[b..e]
  }

  datatype Run = Run(start: nat, end: nat)

  /** Boundary: position i is not in the middle of a digit run. */
  predicate Boundary(s: string, i: nat)
    requires i <= |s|
  {
    i == 0 || i == |s| || !IsDigit(s[i - 1]) || !IsDigit(s[i])
  }

  /** Maximal runs of digits at or after i, left to right. */
  function RunsFrom(s: string, i: nat): seq<Run>
    requires i <= |s|
    decreases |s| - i
  {
    if i == |s| then []
    else if IsDigit(s[i]) then [Run(i, RunEnd(s, i))] + RunsFrom(s, RunEnd(s, i))
    else RunsFrom(s, i + 1)
  }

  /** numRe.FindAllStringIndex(s, -1) for numRe = `\d+`. */
  function DigitRuns(s: string): seq<Run>
  {
    RunsFrom(s, 0)
  }

  /** A maximal digit run of s. */
  predicate IsRun(s: string, r: Run)
  {
    && r.start < r.end <= |s|
    && (r.start == 0 || !IsDigit(s[r.start - 1]))
    && RunEnd(s, r.start) == r.end
  }

  lemma {:induction false} RunEndInside(s: string, b: nat, i: nat)
    requires b <= |s| && b <= i <= RunEnd(s, b)
    ensures RunEnd(s, i) == RunEnd(s, b)
    decreases i - b
  {
    if i > b {
      RunEndInside(s, b + 1, i);
    }
  }

  lemma {:induction false} RunStartInside(s: string, b: nat, i: nat)
    requires b <= |s| && b <= i < RunEnd(s, b)
    requires b == 0 || !IsDigit(s[b - 1])
    ensures RunStart(s, i) == b
    decreases i - b
  {
    if i > b {
      RunStartInside(s, b, i - 1);
    }
  }

  /** Every position of a maximal run names that run through RunStart/RunEnd. */
  lemma RunPositions(s: string, r: Run, i: nat)
    requires IsRun(s, r) && r.start <= i < r.end
    ensures IsDigit(s[i]) && RunStart(s, i) == r.start && RunEnd(s, i) == r.end
  {
    RunStartInside(s, r.start, i);
    RunEndInside(s, r.start, i);
  }

  /** RunEnd passes over every digit it is given. */
  lemma {:induction false} RunEndPast(s: string, i: nat, j: nat)
    requires i <= j <= |s| && forall k :: i <= k < j ==> IsDigit(s[k])
    ensures RunEnd(s, i) >= j
    decreases j - i
  {
    if i < j {
      RunEndPast(s, i + 1, j);
    }
  }

  /** The scanner finds maximal runs, left to right. */
  lemma {:induction false} RunsFromAreRuns(s: string, i: nat)
    requires i <= |s| && Boundary(s, i)
    ensures forall k :: 0 <= k < |RunsFrom(s, i)| ==> IsRun(s, RunsFrom(s, i)[k]) && i <= RunsFrom(s, i)[k].start
    decreases |s| - i
  {
    if i < |s| {
      if IsDigit(s[i]) {
        RunsFromAreRuns(s, RunEnd(s, i));
      } else {
        RunsFromAreRuns(s, i + 1);
      }
    }
  }

  /** The runs the scanner finds are disjoint and in order. */
  lemma {:induction false} RunsFromOrdered(s: string, i: nat)
    requires i <= |s| && Boundary(s, i)
    ensures forall k, k' :: 0 <= k < k' < |RunsFrom(s, i)| ==> RunsFrom(s, i)[k].end < RunsFrom(s, i)[k'].start
    decreases |s| - i
  {
    if i < |s| {
      if IsDigit(s[i]) {
        var e := RunEnd(s, i);
        var rest := RunsFrom(s, e);
        RunsFromOrdered(s, e);
        RunsFromAreRuns(s, e);
        assert RunsFrom(s, i) == [Run(i, e)] + rest;
        forall k | 0 <= k < |rest| ensures e < rest[k].start {
          assert IsRun(s, rest[k]);
        }
      } else {
        RunsFromOrdered(s, i + 1);
      }
    }
  }

  /** Every digit at or after a boundary lies in one of the runs found. */
  lemma {:induction false} RunsFromCover(s: string, i: nat, p: nat) returns (k: nat)
    requires i <= p < |s| && Boundary(s, i) && IsDigit(s[p])
    ensures k < |RunsFrom(s, i)| && RunsFrom(s, i)[k].start <= p < RunsFrom(s, i)[k].end
    decreases |s| - i
  {
    if IsDigit(s[i]) {
      var e := RunEnd(s, i);
      if p < e {
        k := 0;
      } else {
        var k' := RunsFromCover(s, e, p);
        k := k' + 1;
      }
    } else {
      k := RunsFromCover(s, i + 1, p);
    }
  }

  lemma DigitRunsFacts(s: string)
    ensures forall k :: 0 <= k < |DigitRuns(s)| ==> IsRun(s, DigitRuns(s)[k])
    ensures forall k, k' :: 0 <= k < k' < |DigitRuns(s)| ==> DigitRuns(s)[k].end < DigitRuns(s)[k'].start
  {
    RunsFromAreRuns(s, 0);
    RunsFromOrdered(s, 0);
  }

  /** The values of the digit runs at or after i, left to right. */
  function NumbersFrom(s: string, i: nat): seq<nat>
    requires i <= |s|
    decreases |s| - i
  {
    if i == |s| then []
    else if IsDigit(s[i]) then
      var e := RunEnd(s, i);
      assert AllDigits(s[i..e]);
      [DecimalValue(s[i..e])] + NumbersFrom(s, e)
    else NumbersFrom(s, i + 1)
  }

  /** The integers of every match of `\d+` in s, in order. */
  function Numbers(s: string): seq<nat>
  {
    NumbersFrom(s, 0)
  }

  /** A list of numbers written out with a space before each. */
  function Spaced(xs: seq<nat>): string
  {
    if xs == [] then "" else " " + NatToString(xs[0]) + Spaced(xs[1..])
  }

  lemma {:induction false} RunEndShift(a: string, b: string, j: nat)
    requires j <= |b|
    ensures RunEnd(a + b, |a| + j) == |a| + RunEnd(b, j)
    decreases |b| - j
  {
    if j < |b| && IsDigit(b[j]) {
      RunEndShift(a, b, j + 1);
    }
  }

  lemma {:induction false} NumbersFromShift(a: string, b: string, j: nat)
    requires j <= |b|
    ensures NumbersFrom(a + b, |a| + j) == NumbersFrom(b, j)
    decreases |b| - j
  {
    var s := a + b;
    if j < |b| {
      if IsDigit(b[j]) {
        RunEndShift(a, b, j);
        var e := RunEnd(b, j);
        assert s[|a| + j..|a| + e] == b[j..e];
        NumbersFromShift(a, b, e);
      } else {
        NumbersFromShift(a, b, j + 1);
      }
    }
  }

  /** One number written after a space, before text that does not go on
      with a digit, reads back as that number. */
  lemma SpacedStep(x: nat, rest: string)
    requires rest == [] || !IsDigit(rest[0])
    ensures Numbers(" " + NatToString(x) + rest) == [x] + Numbers(rest)
  {
    var d := NatToString(x);
    var s := " " + NatToString(x) + rest;
    assert s == " " + (d + rest);
    RunEndShift(" ", d + rest, 0);
    RunEndShift(d, rest, 0);
    RunEndPast(d + rest, 0, |d|);
    RunEndInside(d + rest, 0, |d|);
    var e := RunEnd(s, 1);
    assert e == 1 + |d|;
    assert s[1..e] == d;
    DecimalValueOfNatToString(x);
    assert NumbersFrom(s, 1) == [x] + NumbersFrom(s, e);
    assert s == (" " + d) + rest;
    NumbersFromShift(" " + d, rest, 0);
  }

  /** Numbers written with a space before each, then text that does not go
      on with a digit: the numbers come first. */
  lemma {:induction false} NumbersOfSpacedThen(xs: seq<nat>, rest: string)
    requires rest == [] || !IsDigit(rest[0])
    ensures Numbers(Spaced(xs) + rest) == xs + Numbers(rest)
    decreases |xs|
  {
    if xs == [] {
      assert Spaced(xs) + rest == rest;
    } else {
      var tail := Spaced(xs[1..]) + rest;
      NumbersOfSpacedThen(xs[1..], rest);
      SpacedThenStart(xs[1..], rest);
      SpacedStep(xs[0], tail);
      assert Spaced(xs) + rest == " " + NatToString(xs[0]) + tail;
      assert xs == [xs[0]] + xs[1..];
    }
  }

  lemma SpacedThenStart(xs: seq<nat>, rest: string)
    requires rest == [] || !IsDigit(rest[0])
    ensures Spaced(xs) + rest == [] || !IsDigit((Spaced(xs) + rest)[0])
  {
    if xs == [] {
      assert Spaced(xs) + rest == rest;
    }
  }

  /** A written list reads back as itself, with or without a space after
      it. */
  lemma NumbersOfSpaced(xs: seq<nat>)
    ensures Numbers(Spaced(xs)) == xs
    ensures Numbers(Spaced(xs) + " ") == xs
  {
    NumbersOfSpacedThen(xs, "");
    assert Spaced(xs) + "" == Spaced(xs);
    NumbersOfSpacedThen(xs, " ");
    assert NumbersFrom(" ", 1) == [];
    assert xs + [] == xs;
  }

  /** A list written out holds only spaces and digits. */
  lemma {:induction false} SpacedChars(xs: seq<nat>)
    ensures forall k :: 0 <= k < |Spaced(xs)| ==> Spaced(xs)[k] == ' ' || IsDigit(Spaced(xs)[k])
    decreases |xs|
  {
    if xs != [] {
      SpacedChars(xs[1..]);
      var d := NatToString(xs[0]);
      var t := Spaced(xs[1..]);
      assert Spaced(xs) == " " + d + t;
      forall k | 0 <= k < |Spaced(xs)| ensures Spaced(xs)[k] == ' ' || IsDigit(Spaced(xs)[k]) {
        if 1 <= k < 1 + |d| {
          assert Spaced(xs)[k] == d[k - 1];
        } else if k >= 1 + |d| {
          assert Spaced(xs)[k] == t[k - 1 - |d|];
        }
      }
    }
  }

  /** Text without digits adds no number. */
  lemma {:induction false} NumbersFromSkip(s: string, i: nat, p: nat)
    requires i <= p <= |s| && forall k :: i <= k < p ==> !IsDigit(s[k])
    ensures NumbersFrom(s, i) == NumbersFrom(s, p)
    decreases p - i
  {
    if i < p {
      NumbersFromSkip(s, i + 1, p);
    }
  }

  /** Text without digits in front of t adds no number. */
  lemma NumbersAfter(a: string, t: string)
    requires forall k :: 0 <= k < |a| ==> !IsDigit(a[k])
    ensures Numbers(a + t) == Numbers(t)
  {
    NumbersFromSkip(a + t, 0, |a|);
    NumbersFromShift(a, t, 0);
  }

  /** Some character of s is a digit. */
  predicate HasDigit(s: string)
  {
    exists p :: 0 <= p < |s| && IsDigit(s[p])
  }

  /** A text with a digit holds a number. */
  lemma NumbersExist(s: string)
    requires HasDigit(s)
    ensures |Numbers(s)| >= 1 && |DigitRuns(s)| >= 1
  {
    var p :| 0 <= p < |s| && IsDigit(s[p]);
    var k := RunsFromCover(s, 0, p);
    NumbersAreRunValues(s, 0);
  }

  /** p is the position of the first digit of s. */
  predicate IsFirstDigit(s: string, p: nat)
  {
    p < |s| && IsDigit(s[p]) && forall k :: 0 <= k < p ==> !IsDigit(s[k])
  }

  /** A text with a digit holds a number, and its first number is the
      value of the run that starts at its first digit. */
  lemma FirstNumber(s: string, p: nat)
    requires IsFirstDigit(s, p)
    ensures |Numbers(s)| >= 1
    ensures AllDigits(s[p..RunEnd(s, p)]) && Numbers(s)[0] == DecimalValue(s[p..RunEnd(s, p)])
  {
    NumbersFromSkip(s, 0, p);
    assert AllDigits(s[p..RunEnd(s, p)]);
  }

  /** The numbers are the values of the digit runs, one for one. */
  lemma {:induction false} NumbersAreRunValues(s: string, i: nat)
    requires i <= |s|
    ensures |NumbersFrom(s, i)| == |RunsFrom(s, i)|
    ensures forall k :: 0 <= k < |RunsFrom(s, i)| ==>
      && RunsFrom(s, i)[k].start < RunsFrom(s, i)[k].end <= |s|
      && AllDigits(s[RunsFrom(s, i)[k].start..RunsFrom(s, i)[k].end])
      && NumbersFrom(s, i)[k] == DecimalValue(s[RunsFrom(s, i)[k].start..RunsFrom(s, i)[k].end])
    decreases |s| - i
  {
    if i < |s| {
      if IsDigit(s[i]) {
        var e := RunEnd(s, i);
        NumbersAreRunValues(s, e);
        assert AllDigits(s[i..e]);
        var ns, rs := NumbersFrom(s, i), RunsFrom(s, i);
        assert ns == [DecimalValue(s[i..e])] + NumbersFrom(s, e);
        assert rs == [Run(i, e)] + RunsFrom(s, e);
        forall k | 1 <= k < |rs|
          ensures rs[k] == RunsFrom(s, e)[k - 1] && ns[k] == NumbersFrom(s, e)[k - 1]
        {
        }
      } else {
        NumbersAreRunValues(s, i + 1);
      }
    }
  }

  /** The loop over numRe.FindAllStringIndex(w, -1) that converts each
      digit run with strconv.Atoi and appends it. */
  method ParseNumbers(w: string) returns (ns: seq<int>)
    ensures ns == Numbers(w)
  {
    var runs := DigitRuns(w);
    NumbersAreRunValues(w, 0);
    ns := [];
    for k := 0 to |runs|
      invariant ns == Numbers(w)[..k]
    {
      var n := DecimalValue(w[runs[k].start..runs[k].end]);
      ns := ns + [n];
    }
  }

  // ---------------------------------------------------------------------
  // strings.Index, strings.Split and strings.TrimPrefix for one-character
  // separators.

  /** strings.Index(s, string(c)): the first position of c, or -1. */
  function Index(s: string, c: char): (r: int)
    ensures -1 <= r < |s|
    ensures r == -1 <==> c !in s
    ensures r >= 0 ==> s[r] == c && c !in s[..r]
  {
    if |s| == 0 then -1
    else if s[0] == c then 0
    else
      var k := Index(s[1..], c);
      if k == -1 then -1 else assert s[..k + 1] == [s[0]] + s[1..][..k]; k + 1
  }

  /** strings.Split(s, string(c)): the pieces between occurrences of c. */
  function Split(s: string, c: char): (r: seq<string>)
    ensures |r| >= 1
    decreases |s|
  {
    var i := Index(s, c);
    if i == -1 then [s] else [s[..i]] + Split(s[i + 1..], c)
  }

  /** No piece of a split holds the separator. */
  lemma {:induction false} SplitPieces(s: string, c: char)
    ensures forall k :: 0 <= k < |Split(s, c)| ==> c !in Split(s, c)[k]
    decreases |s|
  {
    var i := Index(s, c);
    if i != -1 {
      SplitPieces(s[i + 1..], c);
    }
  }

  /** strings.Join(pieces, string(c)). */
  function Join(pieces: seq<string>, c: char): string
  {
    if |pieces| <= 1 then (if pieces == [] then "" else pieces[0])
    else pieces[0] + [c] + Join(pieces[1..], c)
  }

  /** Split and Join are inverse: no character of s is lost or added. */
  lemma {:induction false} JoinSplit(s: string, c: char)
    ensures Join(Split(s, c), c) == s
    decreases |s|
  {
    var i := Index(s, c);
    if i != -1 {
      var h, rest := s[..i], s[i + 1..];
      JoinSplit(rest, c);
      SplitAt(s, c);
      JoinCons(h, Split(rest, c), c);
      SliceAround(s, i);
    } else {
      assert Split(s, c) == [s];
    }
  }

  /** One step of Split: the text before the first c, then the split of
      the text after it. */
  lemma SplitAt(s: string, c: char)
    requires c in s
    ensures Split(s, c) == [s[..Index(s, c)]] + Split(s[Index(s, c) + 1..], c)
  {
  }

  /** A text is what comes before position i, the character at i, and
      what follows. */
  lemma SliceAround(s: string, i: nat)
    requires i < |s|
    ensures s == s[..i] + [s[i]] + s[i + 1..]
  {
  }

  /** Joining a piece in front of at least one more. */
  lemma JoinCons(h: string, r: seq<string>, c: char)
    requires r != []
    ensures Join([h] + r, c) == h + [c] + Join(r, c)
  {
    assert ([h] + r)[1..] == r;
  }

  lemma SliceSplit(s: string, i: nat, e: nat)
    requires i <= e <= |s|
    ensures s[i..] == s[i..e] + s[e..]
  {
  }

  /** Joining one more piece appends the separator and the piece. */
  lemma {:induction false} JoinSnoc(pieces: seq<string>, x: string, c: char)
    ensures Join(pieces + [x], c) == if pieces == [] then x else Join(pieces, c) + [c] + x
    decreases |pieces|
  {
    if |pieces| > 1 {
      JoinSnoc(pieces[1..], x, c);
      assert (pieces + [x])[1..] == pieces[1..] + [x];
    } else if |pieces| == 1 {
      assert (pieces + [x])[1..] == [x];
    }
  }

  /** Splitting a string in which c occurs exactly once gives two pieces. */
  lemma SplitOnce(s: string, c: char, i: nat)
    requires i < |s| && s[i] == c && c !in s[..i] && c !in s[i + 1..]
    ensures Split(s, c) == [s[..i], s[i + 1..]]
  {
    assert Index(s, c) == i;
  }

  /** A piece without c, then c, then the rest: the piece comes first and
      the rest is split on its own. */
  lemma SplitCons(h: string, c: char, rest: string)
    requires c !in h
    ensures Split(h + [c] + rest, c) == [h] + Split(rest, c)
  {
    var s := h + [c] + rest;
    assert s[..|h|] == h && s[|h| + 1..] == rest;
    assert Index(s, c) == |h| by {
      assert s[|h|] == c && c !in s[..|h|];
    }
  }

  /** Splitting gives two pieces exactly when c occurs once: at its first
      position, with the pieces on either side of it. */
  lemma SplitTwo(s: string, c: char)
    ensures |Split(s, c)| == 2 <==> (c in s && c !in s[Index(s, c) + 1..])
    ensures |Split(s, c)| == 2 ==>
      && Split(s, c) == [s[..Index(s, c)], s[Index(s, c) + 1..]]
      && forall k :: 0 <= k < |s| && s[k] == c ==> k == Index(s, c)
  {
    var i := Index(s, c);
    if i != -1 {
      var rest := s[i + 1..];
      assert Split(s, c) == [s[..i]] + Split(rest, c);
      if c !in rest {
        assert Split(rest, c) == [rest];
      } else {
        assert |Split(rest, c)| >= 2 by {
          var j := Index(rest, c);
          assert Split(rest, c) == [rest[..j]] + Split(rest[j + 1..], c);
        }
      }
      forall k | 0 <= k < i ensures s[k] != c {
        assert s[..i][k] == s[k];
      }
      forall k | i < k < |s| && c !in rest ensures s[k] != c {
        assert rest[k - i - 1] == s[k];
      }
    }
  }

  /** strings.TrimPrefix. */
  function TrimPrefix(s: string, prefix: string): (r: string)
    ensures prefix <= s ==> prefix + r == s
    ensures !(prefix <= s) ==> r == s
  {
    if prefix <= s then s[|prefix|..] else s
  }
}
