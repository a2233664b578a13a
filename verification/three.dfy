/** The third star: which cube games are possible with a given bag, and
    the sum of their IDs. */
module Three {
  import opened Text
  import opened CubeGames
  import Util

  /** A game: its ID and the largest count of each colour seen in it. */
  datatype Game = Game(id: int, maxRed: int, maxGreen: int, maxBlue: int)
  {
    /** The largest counts, as a Counts. */
    function Maxima(): Counts
    {
      Counts(maxRed, maxGreen, maxBlue)
    }

    /** Game.Possible: the bag holds at least the largest count of each
        colour. */
    predicate Possible(r: int, g: int, b: int)
    {
      r >= maxRed && g >= maxGreen && b >= maxBlue
    }
  }

  /** The game a line describes: its ID and the maxima of its colours. */
  function GameOf(s: string): Game
  {
    var ic := GameIDAndColorString(s);
    var m := MaxOver(Split(ic.1, ';'));
    Game(ic.0, m.red, m.green, m.blue)
  }

  /** ParseGame. */
  method ParseGame(s: string) returns (gg: Game)
    ensures gg.id == GameIDAndColorString(s).0
    ensures gg.Maxima() == MaxOver(Handfuls(s))
  {
    var id, colors := GameIDAndColorString(s).0, GameIDAndColorString(s).1;
    var r, g, b := MaxColors(colors);
    gg := Game(id, r, g, b);
  }

  /** A line with no colours (none, or not exactly one ':') has all maxima 0. */
  lemma NoColorsZero(s: string)
    requires GameIDAndColorString(s).1 == ""
    ensures GameOf(s).Maxima() == Zero
  {
    assert Split("", ';') == [""];
    assert Draws("") == [];
    assert MaxOver([""]) == Higher(MaxOver([]), HandfulCounts(""));
  }

  /** The empty line gives the zero game. */
  lemma EmptyLine()
    ensures GameOf("") == Game(0, 0, 0, 0)
  {
    GameIDWithoutColon("");
    NoColorsZero("");
  }

  /** A line without ':', or with more than one, gives the zero game. */
  lemma MalformedLine(s: string)
    requires ':' !in s || exists i, j :: 0 <= i < j < |s| && s[i] == ':' && s[j] == ':'
    ensures GameOf(s) == Game(0, 0, 0, 0)
  {
    if ':' !in s {
      GameIDWithoutColon(s);
    } else {
      var i, j :| 0 <= i < j < |s| && s[i] == ':' && s[j] == ':';
      GameIDTwoColons(s, i, j);
    }
    NoColorsZero(s);
  }

  /** A written game line parses to its ID and the per-colour maxima of
      its handfuls. */
  lemma GameOfLine(id: nat, hs: seq<seq<Draw>>)
    requires hs != []
    ensures GameOf(GameLine(id, hs)) == Game(id, MaxOfDraws(hs).red, MaxOfDraws(hs).green, MaxOfDraws(hs).blue)
  {
    GameLineReads(id, hs);
  }

  /** A game is possible exactly when the bag holds at least as many
      cubes of each colour as every handful of the line shows, and no
      colour of the bag is negative. */
  lemma PossibleIffEveryHandfulFits(s: string, r: int, g: int, b: int)
    ensures GameOf(s).Possible(r, g, b) <==>
      forall c: Color :: 0 <= Counts(r, g, b).Get(c) &&
        forall k :: 0 <= k < |Handfuls(s)| ==>
          HandfulCounts(Handfuls(s)[k]).Get(c) <= Counts(r, g, b).Get(c)
  {
    var segs := Handfuls(s);
    PossibleIffFits(GameOf(s), segs, r, g, b);
  }

  /** The same, for any game whose maxima are those of the segments. */
  lemma PossibleIffFits(gg: Game, segs: seq<string>, r: int, g: int, b: int)
    requires gg.Maxima() == MaxOver(segs)
    ensures gg.Possible(r, g, b) <==>
      forall c: Color :: 0 <= Counts(r, g, b).Get(c) &&
        forall k :: 0 <= k < |segs| ==> HandfulCounts(segs[k]).Get(c) <= Counts(r, g, b).Get(c)
  {
    var bag := Counts(r, g, b);
    FitsIffAtLeastMax(segs, bag);
    assert gg.Possible(r, g, b) <==> forall c: Color :: gg.Maxima().Get(c) <= bag.Get(c) by {
      assert bag.Get(Red) == r && bag.Get(Green) == g && bag.Get(Blue) == b;
    }
  }

  /** A bag with more cubes of every colour keeps every possible game
      possible. */
  lemma PossibleMonotone(gg: Game, r: int, g: int, b: int, r': int, g': int, b': int)
    requires gg.Possible(r, g, b) && r <= r' && g <= g' && b <= b'
    ensures gg.Possible(r', g', b')
  {
  }

  /** What a line adds to the sum: its ID when the game is possible. */
  function Contribution(s: string, r: int, g: int, b: int): int
  {
    var gg := GameOf(s);
    if gg.Possible(r, g, b) then gg.id else 0
  }

  /** Each line's contribution, in order. */
  function Contributions(doc: seq<string>, r: int, g: int, b: int): (vs: seq<int>)
  {
    seq(|doc|, k requires 0 <= k < |doc| => Contribution(doc[k], r, g, b))
  }

  lemma ContributionsStep(doc: seq<string>, r: int, g: int, b: int, k: nat)
    requires k < |doc|
    ensures Util.Total(Contributions(doc[..k + 1], r, g, b)) ==
            Util.Total(Contributions(doc[..k], r, g, b)) + Contribution(doc[k], r, g, b)
  {
    var v := Contribution(doc[k], r, g, b);
    var a, c := Contributions(doc[..k + 1], r, g, b), Contributions(doc[..k], r, g, b) + [v];
    forall j | 0 <= j < k + 1 ensures a[j] == c[j] {
      if j < k {
        assert doc[..k + 1][j] == doc[..k][j];
      }
    }
    assert a == c;
    Util.TotalSnoc(Contributions(doc[..k], r, g, b), v);
  }

  /** FromDocument: the sum of the IDs of the games possible with r red,
      g green and b blue cubes. */
  method FromDocument(doc: seq<string>, r: int, g: int, b: int) returns (value: int)
    ensures value == Util.Total(Contributions(doc, r, g, b))
  {
    value := 0;
    for k := 0 to |doc|
      invariant value == Util.Total(Contributions(doc[..k], r, g, b))
    {
      var gg := ParseGame(doc[k]);
      ContributionsStep(doc, r, g, b, k);
      if gg.Possible(r, g, b) {
        value := value + gg.id;
      }
    }
    assert doc[..|doc|] == doc;
  }

  /** "Game 4: 1 green, 3 red, 6 blue; 3 green, 6 red; 3 green, 15 blue,
      14 red" parses to ID 4 with maxima 14 red, 3 green and 15 blue. */
  lemma Game4Example()
    ensures GameOf(GameLine(4, Example[3])) == Game(4, 14, 3, 15)
  {
    GameOfLine(4, Example[3]);
    ExampleMaxima(3);
  }

  /** Game k + 1 of the example document. */
  lemma ExampleGame(k: nat)
    requires k < 5
    ensures GameOf(ExampleDocument()[k]) ==
      Game(k + 1, ExampleMax[k].red, ExampleMax[k].green, ExampleMax[k].blue)
  {
    GameOfLine(k + 1, Example[k]);
    ExampleMaxima(k);
  }

  const ExampleContributions: seq<int> := [1, 2, 0, 0, 5]

  /** What game k + 1 of the example document adds with 12 red, 13 green
      and 14 blue cubes. */
  lemma ExampleContribution(k: nat)
    requires k < 5
    ensures Contributions(ExampleDocument(), 12, 13, 14)[k] == ExampleContributions[k]
  {
    ExampleGame(k);
    var m := ExampleMax[k];
    assert Contributions(ExampleDocument(), 12, 13, 14)[k] ==
      if 12 >= m.red && 13 >= m.green && 14 >= m.blue then k + 1 else 0;
    if k == 0 {
      assert m == Counts(4, 2, 6);
    } else if k == 1 {
      assert m == Counts(1, 3, 4);
    } else if k == 2 {
      assert m == Counts(20, 13, 6);
    } else if k == 3 {
      assert m == Counts(14, 3, 15);
    } else {
      assert m == Counts(6, 3, 2);
    }
  }

  lemma ExampleTotal(vs: seq<int>)
    requires |vs| == 5 && vs[0] == 1 && vs[1] == 2 && vs[2] == 0 && vs[3] == 0 && vs[4] == 5
    ensures Util.Total(vs) == 8
  {
    Util.TotalOfFive(vs);
  }

  /** With 12 red, 13 green and 14 blue cubes, games 1, 2 and 5 of the
      example are possible and the IDs add up to 8. */
  lemma DocumentExample()
    ensures Util.Total(Contributions(ExampleDocument(), 12, 13, 14)) == 8
  {
    ExampleContribution(0);
    ExampleContribution(1);
    ExampleContribution(2);
    ExampleContribution(3);
    ExampleContribution(4);
    ExampleTotal(Contributions(ExampleDocument(), 12, 13, 14));
  }
}
