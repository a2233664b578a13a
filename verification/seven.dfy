/** The seventh star: scratch cards, the numbers they share and the points
    they score. */
module Seven {
  import opened Text
  import Util

  /** A scratch card: its winning numbers and the numbers it holds, in the
      order they are written. */
  datatype Card = Card(winning: seq<int>, have: seq<int>)

  /** Parse slices the text between ':' and '|', which the runtime refuses
      when '|' comes first. */
  predicate Sliceable(s: string)
  {
    Index(s, ':') == -1 || Index(s, '|') == -1 || Index(s, ':') < Index(s, '|')
  }

  /** The card a line describes: no numbers when ':' or '|' is missing,
      otherwise the digit runs between the first ':' and the first '|' and
      those after the first '|'. */
  function CardOf(s: string): Card
    requires Sliceable(s)
  {
    var widx, hidx := Index(s, ':'), Index(s, '|');
    if widx == -1 || hidx == -1 then Card([], [])
    else Card(Numbers(s[widx + 1..hidx]), Numbers(s[hidx + 1..]))
  }

  /** Parse. */
  method Parse(s: string) returns (ret: Card)
    requires Sliceable(s)
    ensures ret == CardOf(s)
  {
    var widx := Index(s, ':');
    var hidx := Index(s, '|');
    if widx == -1 || hidx == -1 {
      return Card([], []);
    }
    var w := s[widx + 1..hidx];
    var h := s[hidx + 1..];
    var winning := ParseNumbers(w);
    var have := ParseNumbers(h);
    ret := Card(winning, have);
  }

  /** A line without ':' or without '|' is the empty card. */
  lemma CardOfMissing(s: string)
    requires ':' !in s || '|' !in s
    ensures Sliceable(s) && CardOf(s) == Card([], [])
  {
  }

  /** A card as the puzzle writes it: "Card <id>:", the winning numbers,
      " |" and the numbers held, each number after a space. */
  function CardLine(id: nat, winning: seq<nat>, have: seq<nat>): string
  {
    "Card " + NatToString(id) + ":" + Spaced(winning) + " |" + Spaced(have)
  }

  /** Index finds the first occurrence. */
  lemma IndexAt(s: string, c: char, i: nat)
    requires i < |s| && s[i] == c && forall k :: 0 <= k < i ==> s[k] != c
    ensures Index(s, c) == i
  {
    assert s[..i + 1][i] == c;
  }

  /** No ':' and no '|' in "Card <id>". */
  lemma CardHeadChars(id: nat)
    ensures ':' !in "Card " + NatToString(id) && '|' !in "Card " + NatToString(id)
  {
    var d := NatToString(id);
    assert ':' !in d && '|' !in d by {
      forall k | 0 <= k < |d| ensures IsDigit(d[k]) {
      }
    }
  }

  /** The first ':' and '|' of head + ":" + mid + " |" + tail, when head
      holds neither and mid no '|'. */
  lemma SeparatorsAt(head: string, mid: string, tail: string)
    requires ':' !in head && '|' !in head && '|' !in mid
    ensures var s := head + ":" + mid + " |" + tail;
      var hidx := |head| + 2 + |mid|;
      && Index(s, ':') == |head| && Index(s, '|') == hidx
      && s[|head| + 1..hidx] == mid + " " && s[hidx + 1..] == tail
  {
    var s := head + ":" + mid + " |" + tail;
    var hidx := |head| + 2 + |mid|;
    forall k | 0 <= k < |head| ensures s[k] == head[k] {
    }
    forall k | 0 <= k < |mid| ensures s[|head| + 1 + k] == mid[k] {
    }
    assert s[|head|] == ':' && s[hidx - 1] == ' ' && s[hidx] == '|';
    IndexAt(s, ':', |head|);
    forall k | 0 <= k < hidx ensures s[k] != '|' {
      if k < |head| {
        assert s[k] == head[k];
      } else if |head| < k < hidx - 1 {
        assert s[k] == mid[k - |head| - 1];
      }
    }
    IndexAt(s, '|', hidx);
    assert s[|head| + 1..hidx] == mid + " ";
    assert s[hidx + 1..] == tail;
  }

  /** The card of head + ":" + mid + " |" + tail, when head holds neither
      separator and mid no '|'. */
  lemma CardOfParts(head: string, mid: string, tail: string)
    requires ':' !in head && '|' !in head && '|' !in mid
    ensures Sliceable(head + ":" + mid + " |" + tail)
    ensures CardOf(head + ":" + mid + " |" + tail) == Card(Numbers(mid + " "), Numbers(tail))
  {
    SeparatorsAt(head, mid, tail);
  }

  /** A written card parses back to its numbers. */
  lemma CardOfLine(id: nat, winning: seq<nat>, have: seq<nat>)
    ensures Sliceable(CardLine(id, winning, have))
    ensures CardOf(CardLine(id, winning, have)) == Card(winning, have)
  {
    var sw := Spaced(winning);
    CardHeadChars(id);
    SpacedChars(winning);
    assert '|' !in sw by {
      forall k | 0 <= k < |sw| ensures sw[k] != '|' {
      }
    }
    CardOfParts("Card " + NatToString(id), sw, Spaced(have));
    NumbersOfSpaced(winning);
    NumbersOfSpaced(have);
  }

  /** Card.Matches: the distinct numbers that are both winning and held,
      in ascending order. */
  function Matches(c: Card): seq<int>
  {
    Util.Intersection(c.winning, c.have)
  }

  /** 2 to the power n. */
  function Pow2(n: nat): (p: nat)
    ensures p >= 1
  {
    if n == 0 then 1 else 2 * Pow2(n - 1)
  }

  /** The points of a card with m matches: 2^(m-1), or none without a
      match. */
  function Points(m: nat): (p: nat)
    ensures p == 0 <==> m == 0
  {
    if m > 0 then Pow2(m - 1) else 0
  }

  /** The first match is worth one point and every further match doubles
      the points. */
  lemma PointsDouble(m: nat)
    ensures Points(1) == 1
    ensures m >= 1 ==> Points(m + 1) == 2 * Points(m)
  {
  }

  /** The points of each line's card, in order. */
  function CardPoints(doc: seq<string>): seq<int>
    requires forall k :: 0 <= k < |doc| ==> Sliceable(doc[k])
  {
    seq(|doc|, k requires 0 <= k < |doc| => Points(|Matches(CardOf(doc[k]))|))
  }

  lemma CardPointsStep(doc: seq<string>, k: nat)
    requires forall k :: 0 <= k < |doc| ==> Sliceable(doc[k])
    requires k < |doc|
    ensures Util.Total(CardPoints(doc[..k + 1])) ==
            Util.Total(CardPoints(doc[..k])) + Points(|Matches(CardOf(doc[k]))|)
  {
    var v := Points(|Matches(CardOf(doc[k]))|);
    var a, b := CardPoints(doc[..k + 1]), CardPoints(doc[..k]) + [v];
    forall j | 0 <= j < k + 1 ensures a[j] == b[j] {
      if j < k {
        assert doc[..k + 1][j] == doc[..k][j];
      }
    }
    assert a == b;
    Util.TotalSnoc(CardPoints(doc[..k]), v);
  }

  /** FromDocument: the sum of the points of the cards. */
  method FromDocument(doc: seq<string>) returns (points: int)
    requires forall k :: 0 <= k < |doc| ==> Sliceable(doc[k])
    ensures points == Util.Total(CardPoints(doc))
  {
    points := 0;
    for k := 0 to |doc|
      invariant points == Util.Total(CardPoints(doc[..k]))
    {
      var card := Parse(doc[k]);
      var matches := |Matches(card)|;
      CardPointsStep(doc, k);
      if matches > 0 {
        points := points + Pow2(matches - 1);
      }
    }
    assert doc[..|doc|] == doc;
  }

  /** The points are never negative, and a document whose every card
      shares a number scores at least one point per line. */
  lemma DocumentPointsBounds(doc: seq<string>)
    requires forall k :: 0 <= k < |doc| ==> Sliceable(doc[k])
    ensures Util.Total(CardPoints(doc)) >= 0
    ensures (forall k :: 0 <= k < |doc| ==> Matches(CardOf(doc[k])) != []) ==>
      Util.Total(CardPoints(doc)) >= |doc|
  {
    Util.TotalNonNegative(CardPoints(doc));
    if forall k :: 0 <= k < |doc| ==> Matches(CardOf(doc[k])) != [] {
      Util.TotalAtLeastLength(CardPoints(doc));
    }
  }

  /** The six cards of the puzzle's example: winning numbers, numbers
      held, and the numbers they share. */
  const ExampleWinning: seq<seq<nat>> :=
    [[41, 48, 83, 86, 17], [13, 32, 20, 16, 61], [1, 21, 53, 59, 44],
     [41, 92, 73, 84, 69], [87, 83, 26, 28, 32], [31, 18, 13, 56, 72]]
  const ExampleHave: seq<seq<nat>> :=
    [[83, 86, 6, 31, 17, 9, 48, 53], [61, 30, 68, 82, 17, 32, 24, 19], [69, 82, 63, 72, 16, 21, 14, 1],
     [59, 84, 76, 51, 58, 5, 54, 83], [88, 30, 70, 12, 93, 22, 82, 36], [74, 77, 10, 23, 35, 67, 36, 11]]
  const ExampleMatches: seq<seq<int>> := [[17, 48, 83, 86], [32, 61], [1, 21], [84], [], []]

  /** The example document: card k + 1 on line k. */
  function ExampleDocument(): (doc: seq<string>)
    ensures |doc| == 6
  {
    seq(6, k requires 0 <= k < 6 => ExampleLine(k))
  }

  /** Line k of the example document. */
  function ExampleLine(k: nat): string
    requires k < 6
  {
    CardLine(k + 1, ExampleWinning[k], ExampleHave[k])
  }

  /** Card k + 1 of the example shares the expected numbers, in
      ascending order. */
  lemma ExampleMatch(k: nat)
    requires k < 6
    ensures Matches(Card(ExampleWinning[k], ExampleHave[k])) == ExampleMatches[k]
  {
    var w, h, m := ExampleWinning[k], ExampleHave[k], ExampleMatches[k];
    if k == 0 {
      assert w == [41, 48, 83, 86, 17] && h == [83, 86, 6, 31, 17, 9, 48, 53] && m == [17, 48, 83, 86];
    } else if k == 1 {
      assert w == [13, 32, 20, 16, 61] && h == [61, 30, 68, 82, 17, 32, 24, 19] && m == [32, 61];
    } else if k == 2 {
      assert w == [1, 21, 53, 59, 44] && h == [69, 82, 63, 72, 16, 21, 14, 1] && m == [1, 21];
    } else if k == 3 {
      assert w == [41, 92, 73, 84, 69] && h == [59, 84, 76, 51, 58, 5, 54, 83] && m == [84];
    } else if k == 4 {
      assert w == [87, 83, 26, 28, 32] && h == [88, 30, 70, 12, 93, 22, 82, 36] && m == [];
    } else {
      assert w == [31, 18, 13, 56, 72] && h == [74, 77, 10, 23, 35, 67, 36, 11] && m == [];
    }
    Util.IntersectionIs(w, h, m);
  }

  /** Card k + 1 of the example parses to its numbers and shares the
      expected ones. */
  lemma ExampleCard(k: nat)
    requires k < 6
    ensures Sliceable(ExampleDocument()[k])
    ensures Matches(CardOf(ExampleDocument()[k])) == ExampleMatches[k]
  {
    var d := ExampleDocument();
    assert d[k] == ExampleLine(k);
    CardOfLine(k + 1, ExampleWinning[k], ExampleHave[k]);
    ExampleMatch(k);
  }

  const ExamplePoints: seq<int> := [8, 2, 2, 1, 0, 0]

  /** The points of the matches of card k + 1 of the example. */
  lemma ExampleMatchPoints(k: nat)
    requires k < 6
    ensures Points(|ExampleMatches[k]|) == ExamplePoints[k]
  {
    if k == 0 {
      assert |ExampleMatches[k]| == 4;
      PointsDouble(1);
      PointsDouble(2);
      PointsDouble(3);
    } else if k == 1 || k == 2 {
      assert |ExampleMatches[k]| == 2;
      PointsDouble(1);
    } else if k == 3 {
      assert |ExampleMatches[k]| == 1;
    } else {
      assert |ExampleMatches[k]| == 0;
    }
  }

  /** The points of card k + 1 of the example. */
  lemma ExampleCardPoints(k: nat)
    requires k < 6
    requires forall j :: 0 <= j < 6 ==> Sliceable(ExampleDocument()[j])
    ensures CardPoints(ExampleDocument())[k] == ExamplePoints[k]
  {
    ExampleCard(k);
    ExampleMatchPoints(k);
  }

  lemma ExampleTotal(vs: seq<int>)
    requires |vs| == 6 && vs[0] == 8 && vs[1] == 2 && vs[2] == 2 && vs[3] == 1 && vs[4] == 0 && vs[5] == 0
    ensures Util.Total(vs) == 13
  {
    Util.TotalOfFive(vs[..5]);
    assert vs == vs[..5] + [vs[5]];
    Util.TotalSnoc(vs[..5], vs[5]);
  }

  /** The example's cards score 8, 2, 2, 1, 0 and 0 points: 13 in all. */
  lemma DocumentExample()
    ensures forall k :: 0 <= k < 6 ==> Sliceable(ExampleDocument()[k])
    ensures Util.Total(CardPoints(ExampleDocument())) == 13
  {
    forall k | 0 <= k < 6 ensures Sliceable(ExampleDocument()[k]) {
      ExampleCard(k);
    }
    ExampleCardPoints(0);
    ExampleCardPoints(1);
    ExampleCardPoints(2);
    ExampleCardPoints(3);
    ExampleCardPoints(4);
    ExampleCardPoints(5);
    ExampleTotal(CardPoints(ExampleDocument()));
  }
}
