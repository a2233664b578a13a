/** The fourth star: the fewest cubes of each colour a game needs, and the
    sum of the powers of those sets. */
module Four {
  import opened Wrappers
  import opened Text
  import opened CubeGames
  import Util

  /** A game: its ID and the fewest cubes of each colour it needs, which
      is the largest count of that colour seen in it. */
  datatype Game = Game(id: int, minRed: int, minGreen: int, minBlue: int)
  {
    function Minima(): Counts
    {
      Counts(minRed, minGreen, minBlue)
    }
  }

  /** Game.Power: the product of the three minima; a missing game has
      power 0. */
  function Power(gg: Option<Game>): (p: int)
    ensures gg.None? ==> p == 0
    ensures gg.Some? && (gg.value.minRed == 0 || gg.value.minGreen == 0 || gg.value.minBlue == 0) ==> p == 0
  {
    match gg
    case None => 0
    case Some(g) => g.minRed * g.minGreen * g.minBlue
  }

  /** The game a line describes. */
  function GameOf(s: string): Game
  {
    var ic := GameIDAndColorString(s);
    var m := MaxOver(Split(ic.1, ';'));
    Game(ic.0, m.red, m.green, m.blue)
  }

  /** ParseGame: never a missing game. */
  method ParseGame(s: string) returns (gg: Option<Game>)
    ensures gg.Some?
    ensures gg.value.id == GameIDAndColorString(s).0
    ensures gg.value.Minima() == MaxOver(Handfuls(s))
  {
    var id, colors := GameIDAndColorString(s).0, GameIDAndColorString(s).1;
    var r, g, b := MaxColors(colors);
    gg := Some(Game(id, r, g, b));
  }

  /** The minima are the fewest cubes that fit every handful: a bag fits
      every handful of the line exactly when it holds at least the minima. */
  lemma MinimaAreFewest(s: string, bag: Counts)
    ensures (forall c: Color :: GameOf(s).Minima().Get(c) <= bag.Get(c)) <==>
      forall c: Color :: 0 <= bag.Get(c) &&
        forall k :: 0 <= k < |Handfuls(s)| ==>
          HandfulCounts(Handfuls(s)[k]).Get(c) <= bag.Get(c)
  {
    var segs := Handfuls(s);
    assert GameOf(s).Minima() == MaxOver(segs);
    MinimaFit(GameOf(s), segs, bag);
  }

  /** The same, for any game whose minima are the maxima of the segments. */
  lemma MinimaFit(gg: Game, segs: seq<string>, bag: Counts)
    requires gg.Minima() == MaxOver(segs)
    ensures (forall c: Color :: gg.Minima().Get(c) <= bag.Get(c)) <==>
      forall c: Color :: 0 <= bag.Get(c) &&
        forall k :: 0 <= k < |segs| ==> HandfulCounts(segs[k]).Get(c) <= bag.Get(c)
  {
    FitsIffAtLeastMax(segs, bag);
  }

  /** Every minimum is at least 0, so every power is. */
  lemma PowerNonNegative(s: string)
    ensures GameOf(s).minRed >= 0 && GameOf(s).minGreen >= 0 && GameOf(s).minBlue >= 0
    ensures Power(Some(GameOf(s))) >= 0
  {
    var segs := Handfuls(s);
    var m := MaxOver(segs);
    assert GameOf(s) == Game(GameIDAndColorString(s).0, m.red, m.green, m.blue);
    MaxOverBounds(segs, Red);
    MaxOverBounds(segs, Green);
    MaxOverBounds(segs, Blue);
    ProductNonNegative(m.red, m.green, m.blue);
  }

  lemma ProductNonNegative(a: int, b: int, c: int)
    requires a >= 0 && b >= 0 && c >= 0
    ensures a * b * c >= 0
  {
    assert a * b >= 0;
  }

  /** A colour that no handful mentions makes the power 0. */
  lemma PowerZeroWhenColorAbsent(s: string, c: Color)
    requires forall k, j ::
      (0 <= k < |Handfuls(s)| &&
       0 <= j < |Draws(Handfuls(s)[k])|) ==>
        Draws(Handfuls(s)[k])[j].color != c
    ensures Power(Some(GameOf(s))) == 0
  {
    var segs := Handfuls(s);
    assert GameOf(s).Minima() == MaxOver(segs);
    MaxOverAbsent(segs, c);
  }

  /** A line without exactly one ':' (or whose ID is not a number) has no
      colours, so its power is 0. */
  lemma PowerZeroWithoutColors(s: string)
    requires GameIDAndColorString(s).1 == ""
    ensures Power(Some(GameOf(s))) == 0
  {
    assert Split("", ';') == [""];
    assert Draws("") == [];
    assert MaxOver([""]) == Higher(MaxOver([]), HandfulCounts(""));
  }

  /** A line without ':' has power 0. */
  lemma PowerZeroWithoutColon(s: string)
    requires ':' !in s
    ensures Power(Some(GameOf(s))) == 0
  {
    GameIDWithoutColon(s);
    PowerZeroWithoutColors(s);
  }

  /** A written game line needs the per-colour maxima of its handfuls. */
  lemma GameOfLine(id: nat, hs: seq<seq<Draw>>)
    requires hs != []
    ensures GameOf(GameLine(id, hs)).Minima() == MaxOfDraws(hs)
    ensures Power(Some(GameOf(GameLine(id, hs)))) ==
      MaxOfDraws(hs).red * MaxOfDraws(hs).green * MaxOfDraws(hs).blue
  {
    GameLineReads(id, hs);
  }

  /** Each line's power, in order. */
  function Powers(doc: seq<string>): seq<int>
  {
    seq(|doc|, k requires 0 <= k < |doc| => Power(Some(GameOf(doc[k]))))
  }

  lemma PowersStep(doc: seq<string>, k: nat)
    requires k < |doc|
    ensures Util.Total(Powers(doc[..k + 1])) == Util.Total(Powers(doc[..k])) + Power(Some(GameOf(doc[k])))
  {
    var v := Power(Some(GameOf(doc[k])));
    var a, b := Powers(doc[..k + 1]), Powers(doc[..k]) + [v];
    forall j | 0 <= j < k + 1 ensures a[j] == b[j] {
      if j < k {
        assert doc[..k + 1][j] == doc[..k][j];
      }
    }
    assert a == b;
    Util.TotalSnoc(Powers(doc[..k]), v);
  }

  /** FromDocument: the sum of the powers of the games. */
  method FromDocument(doc: seq<string>) returns (value: int)
    ensures value == Util.Total(Powers(doc))
  {
    value := 0;
    for k := 0 to |doc|
      invariant value == Util.Total(Powers(doc[..k]))
    {
      var gg := ParseGame(doc[k]);
      PowersStep(doc, k);
      value := value + Power(gg);
    }
    assert doc[..|doc|] == doc;
  }

  /** The sum of the powers is never negative. */
  lemma DocumentPowerNonNegative(doc: seq<string>)
    ensures Util.Total(Powers(doc)) >= 0
  {
    forall k | 0 <= k < |doc| ensures Powers(doc)[k] >= 0 {
      PowerNonNegative(doc[k]);
    }
    Util.TotalNonNegative(Powers(doc));
  }

  /** Game k + 1 of the example document needs the maxima of its
      handfuls. */
  lemma ExampleGame(k: nat)
    requires k < 5
    ensures GameOf(ExampleDocument()[k]).Minima() == ExampleMax[k]
  {
    GameOfLine(k + 1, Example[k]);
    ExampleMaxima(k);
  }

  const ExamplePowers: seq<int> := [48, 12, 1560, 630, 36]

  /** The power of game k + 1 of the example document. */
  lemma ExamplePower(k: nat)
    requires k < 5
    ensures Powers(ExampleDocument())[k] == ExamplePowers[k]
  {
    ExampleGame(k);
    var m := ExampleMax[k];
    assert Powers(ExampleDocument())[k] == m.red * m.green * m.blue;
    if k == 0 {
      assert m == Counts(4, 2, 6);
    } else if k == 1 {
      assert m == Counts(1, 3, 4);
    } else if k == 2 {
      assert m == Counts(20, 13, 6);
    } else if k == 3 {
      assert m == Counts(14, 3, 15);
    } else {
      assert m == Counts(6, 3, 2);
    }
  }

  lemma ExampleTotal(vs: seq<int>)
    requires |vs| == 5 && vs[0] == 48 && vs[1] == 12 && vs[2] == 1560 && vs[3] == 630 && vs[4] == 36
    ensures Util.Total(vs) == 2286
  {
    Util.TotalOfFive(vs);
  }

  /** The powers of the example's games are 48, 12, 1560, 630 and 36, and
      add up to 2286. */
  lemma DocumentExample()
    ensures Util.Total(Powers(ExampleDocument())) == 2286
  {
    ExamplePower(0);
    ExamplePower(1);
    ExamplePower(2);
    ExamplePower(3);
    ExamplePower(4);
    ExampleTotal(Powers(ExampleDocument()));
  }
}
