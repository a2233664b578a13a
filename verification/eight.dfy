/** The eighth star: scratch cards win copies of the cards after them, and
    the copies win copies in turn; how many cards are there in the end? */
module Eight {
  import opened Wrappers
  import opened Text
  import Util
  import Seven

  /** A card: its ID and how many numbers its two lists share. */
  datatype Card = Card(id: int, matches: int)

  /** Parse panics when '|' comes before ':' (the slice is inverted) and
      when a line with both separators has no digit for the ID. */
  predicate Parsable(s: string)
  {
    && Seven.Sliceable(s)
    && (':' in s && '|' in s ==> HasDigit(s))
  }

  /** The card a line describes: an error without ':' or '|'; otherwise the
      first number of the line as ID, and the number of distinct values
      both between the first ':' and the first '|' and after it. */
  function CardOf(s: string): (r: Result<Card, string>)
    requires Parsable(s)
    ensures r.Err? <==> ':' !in s || '|' !in s
  {
    var widx, hidx := Index(s, ':'), Index(s, '|');
    if widx == -1 || hidx == -1 then Err("invalid Card")
    else
      NumbersExist(s);
      var winning, have := Numbers(s[widx + 1..hidx]), Numbers(s[hidx + 1..]);
      Ok(Card(Numbers(s)[0], |Util.Intersection(winning, have)|))
  }

  /** Parse. */
  method Parse(s: string) returns (r: Result<Card, string>)
    requires Parsable(s)
    ensures r == CardOf(s)
  {
    var widx := Index(s, ':');
    var hidx := Index(s, '|');
    if widx == -1 || hidx == -1 {
      return Err("invalid Card");
    }
    var ididxs := DigitRuns(s);
    NumbersExist(s);
    NumbersAreRunValues(s, 0);
    var id := DecimalValue(s[ididxs[0].start..ididxs[0].end]);
    var w := s[widx + 1..hidx];
    var h := s[hidx + 1..];
    var winning := ParseNumbers(w);
    var have := ParseNumbers(h);
    r := Ok(Card(id, |Util.Intersection(winning, have)|));
  }

  /** The empty line is not a card. */
  lemma EmptyLine()
    ensures Parsable("") && CardOf("").Err?
  {
  }

  /** The ID is the value of the digits that start at the first digit of
      the line. */
  lemma IdIsFirstNumber(s: string, p: nat)
    requires Parsable(s) && ':' in s && '|' in s
    requires IsFirstDigit(s, p)
    ensures AllDigits(s[p..RunEnd(s, p)])
    ensures CardOf(s).value.id == DecimalValue(s[p..RunEnd(s, p)])
  {
    FirstNumber(s, p);
  }

  /** The match count is the number of numbers the seventh star's card of
      the same line shares. */
  lemma MatchesAsSeven(s: string)
    requires Parsable(s) && ':' in s && '|' in s
    ensures CardOf(s).value.matches == |Seven.Matches(Seven.CardOf(s))|
    ensures CardOf(s).value.matches == |(set x | x in Seven.CardOf(s).winning) * (set x | x in Seven.CardOf(s).have)|
  {
    var c := Seven.CardOf(s);
    Util.IntersectionSize(c.winning, c.have);
  }

  /** The numbers of a written card start with its ID. */
  lemma CardLineNumbers(id: nat, winning: seq<nat>, have: seq<nat>)
    ensures |Numbers(Seven.CardLine(id, winning, have))| >= 1
    ensures Numbers(Seven.CardLine(id, winning, have))[0] == id
  {
    var rest := ":" + Spaced(winning) + " |" + Spaced(have);
    var t := " " + NatToString(id) + rest;
    assert Seven.CardLine(id, winning, have) == "Card" + t;
    SpacedStep(id, rest);
    NumbersAfter("Card", t);
  }

  /** A written card parses back to its ID and the number of distinct
      values its lists share. */
  lemma CardOfLine(id: nat, winning: seq<nat>, have: seq<nat>)
    ensures Parsable(Seven.CardLine(id, winning, have))
    ensures CardOf(Seven.CardLine(id, winning, have)) == Ok(Card(id, |Util.Intersection(winning, have)|))
  {
    var s := Seven.CardLine(id, winning, have);
    var d := NatToString(id);
    assert s[5] == d[0] && s[5 + |d|] == ':' && s[7 + |d| + |Spaced(winning)|] == '|';
    Seven.CardOfLine(id, winning, have);
    CardLineNumbers(id, winning, have);
  }

  /** c is the card of the deck that carries its ID. */
  predicate InDeck(cards: seq<Card>, c: Card)
  {
    1 <= c.id <= |cards| && cards[c.id - 1] == c
  }

  /** The worklist holds nothing but cards of the deck. */
  predicate AllInDeck(cards: seq<Card>, xs: seq<Card>)
  {
    forall j :: 0 <= j < |xs| ==> InDeck(cards, xs[j])
  }

  /** Count slices the copies out of the deck and counts them by ID: card
      k holds ID k + 1 and its copies stay inside the deck. */
  predicate Deck(cards: seq<Card>)
  {
    forall k :: 0 <= k < |cards| ==>
      cards[k].id == k + 1 && 0 <= cards[k].matches && k + 1 + cards[k].matches <= |cards|
  }

  /** How many cards card k + 1 ends up as: itself and, recursively, the
      cards its copies win. */
  function Won(cards: seq<Card>, k: nat): (n: nat)
    requires Deck(cards) && k < |cards|
    decreases |cards| - k, 0
  {
    1 + WonRange(cards, k + 1, k + 1 + cards[k].matches)
  }

  /** How many cards cards[lo..hi] end up as. */
  function WonRange(cards: seq<Card>, lo: nat, hi: nat): (n: nat)
    requires Deck(cards) && lo <= hi <= |cards|
    decreases |cards| - lo, hi - lo + 1
  {
    if lo == hi then 0 else Won(cards, lo) + WonRange(cards, lo + 1, hi)
  }

  /** Cards.Count's answer: how many cards the whole deck ends up as. */
  function Instances(cards: seq<Card>): nat
    requires Deck(cards)
  {
    WonRange(cards, 0, |cards|)
  }

  /** How many cards the cards still waiting in the worklist end up as. */
  function Pending(cards: seq<Card>, xs: seq<Card>): nat
    requires Deck(cards) && AllInDeck(cards, xs)
  {
    if xs == [] then 0
    else
      assert InDeck(cards, xs[0]);
      Won(cards, xs[0].id - 1) + Pending(cards, xs[1..])
  }

  lemma {:induction false} PendingConcat(cards: seq<Card>, a: seq<Card>, b: seq<Card>)
    requires Deck(cards)
    requires AllInDeck(cards, a)
    requires AllInDeck(cards, b)
    ensures Pending(cards, a + b) == Pending(cards, a) + Pending(cards, b)
    decreases |a|
  {
    if a == [] {
      assert a + b == b;
    } else {
      PendingConcat(cards, a[1..], b);
      assert (a + b)[1..] == a[1..] + b;
    }
  }

  lemma {:induction false} PendingOfRange(cards: seq<Card>, lo: nat, hi: nat)
    requires Deck(cards) && lo <= hi <= |cards|
    ensures AllInDeck(cards, cards[lo..hi])
    ensures Pending(cards, cards[lo..hi]) == WonRange(cards, lo, hi)
    decreases hi - lo
  {
    if lo < hi {
      PendingOfRange(cards, lo + 1, hi);
      assert cards[lo..hi][1..] == cards[lo + 1..hi];
    }
  }

  /** Taking card xs[i] off the worklist and appending the copies it wins
      leaves one card fewer to come. */
  lemma PendingStep(cards: seq<Card>, xs: seq<Card>, i: nat, copies: seq<Card>)
    requires Deck(cards) && AllInDeck(cards, xs) && i < |xs|
    requires InDeck(cards, xs[i]) && copies == cards[xs[i].id..xs[i].id + xs[i].matches]
    ensures IdsWithin(copies, |cards|)
    ensures AllInDeck(cards, xs + copies)
    ensures Pending(cards, (xs + copies)[i + 1..]) + 1 == Pending(cards, xs[i..])
  {
    var x, rest := xs[i], xs[i + 1..];
    DropAll(cards, xs, i + 1);
    ConcatAll(cards, xs, copies);
    ConcatAll(cards, rest, copies);
    calc {
      Pending(cards, (xs + copies)[i + 1..]) + 1;
      == { PendingAfter(cards, xs, copies, i); }
      Pending(cards, rest + copies) + 1;
      == { PendingConcat(cards, rest, copies); }
      Pending(cards, rest) + Pending(cards, copies) + 1;
      == { PendingCopies(cards, x, copies); }
      Pending(cards, rest) + WonRange(cards, x.id, x.id + x.matches) + 1;
      == { WonOf(cards, x); }
      Pending(cards, rest) + Won(cards, x.id - 1);
      == { PendingAt(cards, xs, i); }
      Pending(cards, xs[i..]);
    }
  }

  lemma PendingCopies(cards: seq<Card>, x: Card, copies: seq<Card>)
    requires Deck(cards) && InDeck(cards, x) && copies == cards[x.id..x.id + x.matches]
    ensures AllInDeck(cards, copies)
    ensures Pending(cards, copies) == WonRange(cards, x.id, x.id + x.matches)
  {
    PendingOfRange(cards, x.id, x.id + x.matches);
  }

  /** Dropping the first i + 1 cards of xs + copies keeps the copies. */
  lemma PendingAfter(cards: seq<Card>, xs: seq<Card>, copies: seq<Card>, i: nat)
    requires i < |xs| && Deck(cards) && AllInDeck(cards, xs + copies) && AllInDeck(cards, xs[i + 1..] + copies)
    ensures AllInDeck(cards, (xs + copies)[i + 1..])
    ensures Pending(cards, (xs + copies)[i + 1..]) == Pending(cards, xs[i + 1..] + copies)
  {
    DropConcat(xs, copies, i + 1);
  }

  /** The cards from xs[i] on: xs[i] itself, then the rest. */
  lemma PendingAt(cards: seq<Card>, xs: seq<Card>, i: nat)
    requires Deck(cards) && AllInDeck(cards, xs) && i < |xs|
    ensures InDeck(cards, xs[i]) && AllInDeck(cards, xs[i..]) && AllInDeck(cards, xs[i + 1..])
    ensures Pending(cards, xs[i..]) == Won(cards, xs[i].id - 1) + Pending(cards, xs[i + 1..])
  {
    DropAll(cards, xs, i);
    DropAll(cards, xs, i + 1);
    DropOne(xs, i);
  }

  lemma WonOf(cards: seq<Card>, x: Card)
    requires Deck(cards) && InDeck(cards, x)
    ensures x.id + x.matches <= |cards|
    ensures Won(cards, x.id - 1) == 1 + WonRange(cards, x.id, x.id + x.matches)
  {
  }

  lemma DropAll(cards: seq<Card>, xs: seq<Card>, i: nat)
    requires AllInDeck(cards, xs) && i <= |xs|
    ensures AllInDeck(cards, xs[i..])
  {
    forall j | 0 <= j < |xs| - i ensures InDeck(cards, xs[i..][j]) {
      assert xs[i..][j] == xs[i + j];
    }
  }

  lemma ConcatAll(cards: seq<Card>, xs: seq<Card>, ys: seq<Card>)
    requires AllInDeck(cards, xs) && AllInDeck(cards, ys)
    ensures AllInDeck(cards, xs + ys) && IdsWithin(ys, |cards|)
  {
    forall j | 0 <= j < |xs + ys| ensures InDeck(cards, (xs + ys)[j]) {
      if j >= |xs| {
        assert (xs + ys)[j] == ys[j - |xs|];
      }
    }
    forall j | 0 <= j < |ys| ensures 1 <= ys[j].id <= |cards| {
      assert InDeck(cards, ys[j]);
    }
  }

  lemma DropConcat(xs: seq<Card>, ys: seq<Card>, i: nat)
    requires i <= |xs|
    ensures (xs + ys)[i..] == xs[i..] + ys
  {
  }

  lemma DropOne(xs: seq<Card>, i: nat)
    requires i < |xs|
    ensures xs[i..][1..] == xs[i + 1..] && xs[i..][0] == xs[i]
  {
  }

  /** Every card of xs has an ID in 1..n. */
  predicate IdsWithin(xs: seq<Card>, n: nat)
  {
    forall j :: 0 <= j < |xs| ==> 1 <= xs[j].id <= n
  }

  /** The counts after one more instance of each card of copies. */
  function Counted(count: seq<int>, copies: seq<Card>): (r: seq<int>)
    requires IdsWithin(copies, |count|)
    ensures |r| == |count|
  {
    if copies == [] then count
    else
      var r := Counted(count, copies[..|copies| - 1]);
      var k := copies[|copies| - 1].id - 1;
      r[k := r[k] + 1]
  }

  /** Each copy adds one to the sum of the counts. */
  lemma {:induction false} CountedTotal(count: seq<int>, copies: seq<Card>)
    requires IdsWithin(copies, |count|)
    ensures Util.Total(Counted(count, copies)) == Util.Total(count) + |copies|
    decreases |copies|
  {
    if copies != [] {
      var init := copies[..|copies| - 1];
      CountedTotal(count, init);
      Util.TotalIncrement(Counted(count, init), copies[|copies| - 1].id - 1);
    }
  }

  /** The inner loop of Cards.Count: one more instance of each copy, counted
      by ID. */
  method CountCopies(count: array<int>, copies: seq<Card>)
    requires IdsWithin(copies, count.Length)
    modifies count
    ensures count[..] == Counted(old(count[..]), copies)
  {
    ghost var start := count[..];
    for j := 0 to |copies|
      invariant count[..] == Counted(start, copies[..j])
    {
      assert copies[..j + 1][..j] == copies[..j];
      var cc := copies[j];
      count[cc.id - 1] := count[cc.id - 1] + 1;
    }
    assert copies[..|copies|] == copies;
  }

  /** Cards.Count: the worklist starts as the deck, each card taken from it
      appends the copies it wins, and count[k] counts the instances of card
      k + 1; the answer is the sum of the counts. */
  method Count(cards: seq<Card>) returns (total: int)
    requires Deck(cards)
    ensures total == Instances(cards)
  {
    var expanded := cards;
    var ncards := |cards|;
    var count := new int[ncards];
    for i := 0 to ncards
      invariant Util.Total(count[..i]) == i
    {
      count[i] := 1;
      assert count[..i + 1] == count[..i] + [1];
      Util.TotalSnoc(count[..i], 1);
    }
    assert count[..ncards] == count[..];
    PendingOfRange(cards, 0, ncards);
    assert cards[0..ncards] == cards;

    var i := 0;
    while i < |expanded|
      invariant 0 <= i <= |expanded|
      invariant AllInDeck(cards, expanded)
      invariant Util.Total(count[..]) == |expanded|
      invariant i + Pending(cards, expanded[i..]) == Instances(cards)
      decreases Pending(cards, expanded[i..])
    {
      var c := expanded[i];
      assert InDeck(cards, c);
      var m := c.matches;
      var copies := cards[c.id..c.id + m];
      PendingStep(cards, expanded, i, copies);
      ghost var before := count[..];
      CountCopies(count, copies);
      CountedTotal(before, copies);
      expanded := expanded + copies;
      i := i + 1;
    }
    total := Util.Sum(count[..]);
  }

  /** Every card of the deck is counted at least once, so the deck ends
      up as at least as many cards as it starts with; the empty deck as
      none. */
  lemma InstancesBounds(cards: seq<Card>)
    requires Deck(cards)
    ensures Instances(cards) >= |cards|
    ensures cards == [] ==> Instances(cards) == 0
  {
    WonRangeAtLeast(cards, 0, |cards|);
  }

  lemma {:induction false} WonRangeAtLeast(cards: seq<Card>, lo: nat, hi: nat)
    requires Deck(cards) && lo <= hi <= |cards|
    ensures WonRange(cards, lo, hi) >= hi - lo
    decreases hi - lo
  {
    if lo < hi {
      WonRangeAtLeast(cards, lo + 1, hi);
    }
  }

  /** Each line parses to a card: FromDocument panics otherwise. */
  predicate CardDocument(doc: seq<string>)
  {
    forall k :: 0 <= k < |doc| ==> Parsable(doc[k]) && ':' in doc[k] && '|' in doc[k]
  }

  /** The cards of a document, line by line. */
  function Deal(doc: seq<string>): (cards: seq<Card>)
    requires CardDocument(doc)
    ensures |cards| == |doc|
  {
    seq(|doc|, k requires 0 <= k < |doc| => CardOf(doc[k]).value)
  }

  /** FromDocument: the card of every line, in order. */
  method FromDocument(doc: seq<string>) returns (cards: seq<Card>)
    requires CardDocument(doc)
    ensures cards == Deal(doc)
  {
    cards := [];
    for k := 0 to |doc|
      invariant cards == Deal(doc)[..k]
    {
      var card := Parse(doc[k]);
      cards := cards + [card.value];
    }
  }

  /** The example's cards, as the puzzle lists them. */
  const ExampleDeck: seq<Card> := [Card(1, 4), Card(2, 2), Card(3, 2), Card(4, 1), Card(5, 0), Card(6, 0)]

  /** The number of matches of card k + 1 of the example. */
  lemma ExampleMatchCount(k: nat)
    requires k < 6
    ensures |Seven.ExampleMatches[k]| == ExampleDeck[k].matches && ExampleDeck[k].id == k + 1
  {
  }

  /** Card k + 1 of the example document. */
  lemma ExampleCard(k: nat)
    requires k < 6
    ensures Parsable(Seven.ExampleDocument()[k])
    ensures CardOf(Seven.ExampleDocument()[k]) == Ok(ExampleDeck[k])
  {
    var d := Seven.ExampleDocument();
    var w, h := Seven.ExampleWinning[k], Seven.ExampleHave[k];
    assert d[k] == Seven.ExampleLine(k);
    CardOfLine(k + 1, w, h);
    Seven.ExampleMatch(k);
    ExampleMatchCount(k);
  }

  /** The example document deals the example's cards. */
  lemma ExampleDeal()
    ensures CardDocument(Seven.ExampleDocument())
    ensures Deal(Seven.ExampleDocument()) == ExampleDeck
  {
    forall k | 0 <= k < 6
      ensures Parsable(Seven.ExampleDocument()[k]) && CardOf(Seven.ExampleDocument()[k]) == Ok(ExampleDeck[k])
    {
      ExampleCard(k);
    }
  }

  /** The example's cards end up as 15, 7, 4, 2, 1 and 1 cards: 30 in all. */
  lemma ExampleInstances()
    ensures Deck(ExampleDeck) && Instances(ExampleDeck) == 30
  {
    var c := ExampleDeck;
    assert Won(c, 5) == 1 && Won(c, 4) == 1;
    assert WonRange(c, 4, 5) == 1;
    assert Won(c, 3) == 2;
    assert WonRange(c, 3, 5) == 3;
    assert Won(c, 2) == 4;
    assert WonRange(c, 2, 4) == 6;
    assert Won(c, 1) == 7;
    assert WonRange(c, 1, 5) == 14;
    assert Won(c, 0) == 15;
    assert WonRange(c, 5, 6) == 1;
    assert WonRange(c, 3, 6) == 4;
    assert WonRange(c, 1, 6) == 15;
    assert WonRange(c, 0, 6) == 30;
  }

  /** The example document deals a deck that ends up as 30 cards. */
  lemma DocumentExample()
    ensures CardDocument(Seven.ExampleDocument())
    ensures Deck(Deal(Seven.ExampleDocument())) && Instances(Deal(Seven.ExampleDocument())) == 30
  {
    ExampleDeal();
    ExampleInstances();
  }
}
