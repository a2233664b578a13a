/** The first star: the calibration value of a line is the two-digit number
    made of its first and last decimal digits. */
module One {
  import opened Wrappers
  import opened Text
  import Util

  /** The positions at or after i of the matches of `\d`, left to right. */
  function DigitPositionsFrom(l: string, i: nat): seq<nat>
    requires i <= |l|
    decreases |l| - i
  {
    if i == |l| then []
    else if IsDigit(l[i]) then [i] + DigitPositionsFrom(l, i + 1)
    else DigitPositionsFrom(l, i + 1)
  }

  /** digitRe.FindAllStringIndex(l, -1), keeping the start of each match. */
  function DigitPositions(l: string): seq<nat>
  {
    DigitPositionsFrom(l, 0)
  }

  predicate Increasing(r: seq<nat>)
  {
    forall a, b :: 0 <= a < b < |r| ==> r[a] < r[b]
  }

  /** Every entry of r is the position of a digit of l at or after i. */
  predicate DigitsAt(l: string, i: nat, r: seq<nat>)
  {
    forall k :: 0 <= k < |r| ==> i <= r[k] < |l| && IsDigit(l[r[k]])
  }

  /** Every digit of l at or after i is listed in r; none lies before the
      first entry or after the last one. */
  predicate AllDigitsListed(l: string, i: nat, r: seq<nat>)
  {
    && (forall j :: i <= j < |l| && IsDigit(l[j]) ==> j in r)
    && (|r| == 0 ==> forall j :: i <= j < |l| ==> !IsDigit(l[j]))
    && (|r| > 0 ==> forall j :: i <= j < |l| && j < r[0] ==> !IsDigit(l[j]))
    && (|r| > 0 ==> forall j :: r[|r| - 1] < j < |l| ==> !IsDigit(l[j]))
  }

  /** The scanner lists digit positions at or after i, in increasing order. */
  lemma {:induction false} DigitPositionsSound(l: string, i: nat)
    requires i <= |l|
    ensures DigitsAt(l, i, DigitPositionsFrom(l, i)) && Increasing(DigitPositionsFrom(l, i))
    decreases |l| - i
  {
    if i < |l| {
      DigitPositionsSound(l, i + 1);
      var r' := DigitPositionsFrom(l, i + 1);
      var r := DigitPositionsFrom(l, i);
      if IsDigit(l[i]) {
        assert r == [i] + r';
        assert forall k :: 1 <= k < |r| ==> r[k] == r'[k - 1];
      } else {
        assert r == r';
      }
    }
  }

  /** It misses no digit. */
  lemma {:induction false} DigitPositionsComplete(l: string, i: nat)
    requires i <= |l|
    ensures AllDigitsListed(l, i, DigitPositionsFrom(l, i))
    decreases |l| - i
  {
    if i < |l| {
      DigitPositionsComplete(l, i + 1);
      DigitPositionsSound(l, i + 1);
      var r' := DigitPositionsFrom(l, i + 1);
      var r := DigitPositionsFrom(l, i);
      if IsDigit(l[i]) {
        assert r == [i] + r';
      } else {
        assert r == r';
      }
    }
  }

  /** j is the position of the last digit of l. */
  predicate IsLastDigit(l: string, j: nat)
  {
    j < |l| && IsDigit(l[j]) && forall k :: j < k < |l| ==> !IsDigit(l[k])
  }

  /** line.Value: the digits at the first and the last match read as one
      two-digit number, or 0 for a line without a digit. */
  function LineValue(l: string): (v: nat)
    ensures v <= 99
  {
    var idxs := DigitPositions(l);
    var n := |idxs|;
    DigitPositionsSound(l, 0);
    if n == 0 then 0
    else
      var a, b := l[idxs[0]], l[idxs[n - 1]];
      AtoiTwoDigits(a, b);
      Atoi([a, b]).value
  }

  /** A line without a digit is worth 0. */
  lemma LineValueNoDigit(l: string)
    requires !HasDigit(l)
    ensures LineValue(l) == 0
  {
    DigitPositionsSound(l, 0);
  }

  /** Otherwise it is ten times its first digit plus its last digit. */
  lemma LineValueFirstLast(l: string, i: nat, j: nat)
    requires IsFirstDigit(l, i) && IsLastDigit(l, j)
    ensures LineValue(l) == 10 * DigitValue(l[i]) + DigitValue(l[j])
  {
    var idxs := DigitPositions(l);
    DigitPositionsSound(l, 0);
    DigitPositionsComplete(l, 0);
    var n := |idxs|;
    assert n > 0 && IsDigit(l[idxs[0]]) && IsDigit(l[idxs[n - 1]]);
    assert idxs[0] == i;
    assert idxs[n - 1] == j;
    AtoiTwoDigits(l[i], l[j]);
  }

  /** A line with a digit has a first and a last digit. */
  lemma FirstAndLastDigit(l: string) returns (i: nat, j: nat)
    requires HasDigit(l)
    ensures IsFirstDigit(l, i) && IsLastDigit(l, j) && i <= j
  {
    var idxs := DigitPositions(l);
    DigitPositionsSound(l, 0);
    DigitPositionsComplete(l, 0);
    var p :| 0 <= p < |l| && IsDigit(l[p]);
    assert |idxs| > 0;
    i, j := idxs[0], idxs[|idxs| - 1];
    assert |idxs| == 1 || idxs[0] < idxs[|idxs| - 1];
  }

  /** With digits 1-9 only, the value is a two-digit number in 11..99;
      a line whose first digit is '0' reads as a one-digit number. */
  lemma LineValueRange(l: string)
    requires HasDigit(l)
    ensures (forall k :: 0 <= k < |l| && IsDigit(l[k]) ==> l[k] != '0') ==> 11 <= LineValue(l) <= 99
  {
    var i, j := FirstAndLastDigit(l);
    LineValueFirstLast(l, i, j);
  }

  /** A line with a single digit repeats it. */
  lemma LineValueOneDigit(l: string, i: nat)
    requires i < |l| && IsDigit(l[i])
    requires forall k :: 0 <= k < |l| && k != i ==> !IsDigit(l[k])
    ensures LineValue(l) == 11 * DigitValue(l[i])
  {
    LineValueFirstLast(l, i, i);
  }

  /** The values of the lines of a document, in order. */
  function LineValues(doc: seq<string>): (vs: seq<int>)
    ensures |vs| == |doc|
  {
    if doc == [] then [] else LineValues(doc[..|doc| - 1]) + [LineValue(doc[|doc| - 1])]
  }

  /** One more line adds its value to the sum. */
  lemma TotalOfLines(doc: seq<string>, k: nat)
    requires k < |doc|
    ensures Util.Total(LineValues(doc[..k + 1])) == Util.Total(LineValues(doc[..k])) + LineValue(doc[k])
  {
    assert doc[..k + 1][..k] == doc[..k];
    Util.TotalSnoc(LineValues(doc[..k]), LineValue(doc[k]));
  }

  /** FromDocument: the sum of the values of the lines. */
  method FromDocument(doc: seq<string>) returns (value: int)
    ensures value == Util.Total(LineValues(doc))
  {
    value := 0;
    for k := 0 to |doc|
      invariant value == Util.Total(LineValues(doc[..k]))
    {
      TotalOfLines(doc, k);
      value := value + LineValue(doc[k]);
    }
    assert doc[..|doc|] == doc;
  }

  /** The sum over a document lies between 0 and 99 per line. */
  lemma {:induction false} DocumentValueBounds(doc: seq<string>)
    ensures 0 <= Util.Total(LineValues(doc)) <= 99 * |doc|
    decreases |doc|
  {
    if doc != [] {
      var n := |doc| - 1;
      DocumentValueBounds(doc[..n]);
      assert doc[..n + 1] == doc;
      TotalOfLines(doc, n);
    }
  }

  /** The line examples of the first star. */
  lemma LineExamples()
    ensures LineValue("") == 0
    ensures LineValue("treb7uchet") == 77
    ensures LineValue("a1b2c3d4e5f") == 15
    ensures LineValue("1abc2") == 12
    ensures LineValue("pqr3stu8vwx") == 38
  {
    LineValueNoDigit("");
    LineValueOneDigit("treb7uchet", 4);
    LineValueFirstLast("a1b2c3d4e5f", 1, 9);
    LineValueFirstLast("1abc2", 0, 4);
    LineValueFirstLast("pqr3stu8vwx", 3, 7);
  }

  /** The document example of the first star adds up to 142. */
  lemma DocumentExample()
    ensures Util.Total(LineValues(["1abc2", "pqr3stu8vwx", "a1b2c3d4e5f", "treb7uchet"])) == 142
  {
    var doc := ["1abc2", "pqr3stu8vwx", "a1b2c3d4e5f", "treb7uchet"];
    LineExamples();
    TotalOfLines(doc, 0);
    TotalOfLines(doc, 1);
    TotalOfLines(doc, 2);
    TotalOfLines(doc, 3);
    assert doc[..0] == [] && doc[..4] == doc;
  }
}
