/** The line parsing shared by the third and fourth stars: a game line
    "Game <id>: <handful>; <handful>; ..." in which every handful lists
    counts of red, green and blue cubes.  stars/three/three.go and
    stars/four/four.go carry identical copies of gameIDAndColorString,
    colorsRe, parseColors and maxColors; they are modelled once here. */
module CubeGames {
  import opened Wrappers
  import opened Text

  datatype Color = Red | Green | Blue

  /** The colour names colorsRe accepts. */
  function Name(c: Color): (w: string)
    ensures |w| >= 3
  {
    match c
    case Red => "red"
    case Green => "green"
    case Blue => "blue"
  }

  /** One match of colorsRe: its digit group read as a count and its colour
      group as a Color. */
  datatype Draw = Draw(count: nat, color: Color)

  /** A red, green and blue count, as the triple (r, g, b) of the source. */
  datatype Counts = Counts(red: int, green: int, blue: int)
  {
    function Get(c: Color): int
    {
      match c
      case Red => red
      case Green => green
      case Blue => blue
    }

    /** The counts with colour c set to v. */
    function With(c: Color, v: int): (r: Counts)
      ensures r.Get(c) == v
      ensures forall d :: d != c ==> r.Get(d) == Get(d)
    {
      match c
      case Red => Counts(v, green, blue)
      case Green => Counts(red, v, blue)
      case Blue => Counts(red, green, v)
    }
  }

  const Zero := Counts(0, 0, 0)

  // ---------------------------------------------------------------------
  // gameIDAndColorString.

  /** gameIDAndColorString: the text before the only ':' less a "Game "
      prefix is the ID, and the text after it the colours; a line that does
      not split into exactly two pieces, or whose ID is not a number, gives
      the zero ID and no colours. */
  function GameIDAndColorString(s: string): (r: (int, string))
    ensures r == (0, "") || exists i :: IdColonAt(s, i, r)
  {
    var segs := Split(s, ':');
    if |segs| != 2 then (0, "")
    else
      var i := Index(s, ':');
      SplitTwo(s, ':');
      match Atoi(TrimPrefix(segs[0], "Game "))
      case None => (0, "")
      case Some(id) =>
        assert IdColonAt(s, i, (id, segs[1]));
        (id, segs[1])
  }

  /** s has its only ':' at i, the ID parses from the text before it less
      the "Game " prefix, and the colours are the text after it. */
  predicate IdColonAt(s: string, i: int, r: (int, string))
  {
    && 0 <= i < |s| && s[i] == ':' && ':' !in s[..i] && ':' !in s[i + 1..]
    && Atoi(TrimPrefix(s[..i], "Game ")) == Some(r.0)
    && r.1 == s[i + 1..]
  }

  /** A line whose only ':' is at i and whose ID parses gives that ID and
      the text after the ':'. */
  lemma GameIDAtColon(s: string, i: int, r: (int, string))
    requires IdColonAt(s, i, r)
    ensures GameIDAndColorString(s) == r
  {
    SplitOnce(s, ':', i);
  }

  /** A line whose only ':' is at i but whose ID does not parse gives the
      zero ID and no colours. */
  lemma GameIDNotANumber(s: string, i: int)
    requires 0 <= i < |s| && s[i] == ':' && ':' !in s[..i] && ':' !in s[i + 1..]
    requires Atoi(TrimPrefix(s[..i], "Game ")) == None
    ensures GameIDAndColorString(s) == (0, "")
  {
    SplitOnce(s, ':', i);
  }

  /** The ';'-separated handfuls of a line's colours. */
  function Handfuls(s: string): seq<string>
  {
    Split(GameIDAndColorString(s).1, ';')
  }

  /** A line without ':' gives the zero ID and no colours. */
  lemma GameIDWithoutColon(s: string)
    requires ':' !in s
    ensures GameIDAndColorString(s) == (0, "")
  {
    SplitTwo(s, ':');
  }

  /** A line with two ':' gives the zero ID and no colours. */
  lemma GameIDTwoColons(s: string, i: nat, j: nat)
    requires i < j < |s| && s[i] == ':' && s[j] == ':'
    ensures GameIDAndColorString(s) == (0, "")
  {
    SplitTwo(s, ':');
  }

  /** A line that is "Game <id>:" followed by colours without ':' gives the
      ID and the colours back. */
  lemma GameIDOfLine(id: nat, colors: string)
    requires ':' !in colors
    ensures GameIDAndColorString("Game " + NatToString(id) + ":" + colors) == (id, colors)
  {
    var head := "Game " + NatToString(id);
    var s := head + ":" + colors;
    assert s[..|head|] == head && s[|head| + 1..] == colors;
    forall k | 0 <= k < |head| ensures head[k] != ':' {
      if k >= 5 {
        assert head[k] == NatToString(id)[k - 5];
      }
    }
    SplitOnce(s, ':', |head|);
    assert "Game " <= head;
    assert TrimPrefix(head, "Game ") == NatToString(id);
    AtoiOfNatToString(id);
  }

  // ---------------------------------------------------------------------
  // colorsRe = `\s*(\d+)\s+(red|green|blue)\s*`, found left to right
  // without overlap, as regexp's FindAllStringSubmatch does.

  /** End (exclusive) of the white space that starts at i. */
  function SpacesEnd(s: string, i: nat): (e: nat)
    requires i <= |s|
    ensures i <= e <= |s|
    decreases |s| - i
  {
    if i < |s| && IsSpace(s[i]) then SpacesEnd(s, i + 1) else i
  }

  /** End (exclusive) of the digits that start at i. */
  function DigitsEnd(s: string, i: nat): (e: nat)
    requires i <= |s|
    ensures i <= e <= |s|
    decreases |s| - i
  {
    if i < |s| && IsDigit(s[i]) then DigitsEnd(s, i + 1) else i
  }

  lemma {:induction false} DigitsEndDigits(s: string, i: nat)
    requires i <= |s|
    ensures forall k :: i <= k < DigitsEnd(s, i) ==> IsDigit(s[k])
    decreases |s| - i
  {
    if i < |s| && IsDigit(s[i]) {
      DigitsEndDigits(s, i + 1);
    }
  }

  /** The colour whose name starts at i, if any. */
  function ColorAt(s: string, i: nat): (r: Option<Color>)
    ensures r.Some? ==> i + |Name(r.value)| <= |s|
  {
    if i + 3 <= |s| && s[i] == 'r' && s[i + 1] == 'e' && s[i + 2] == 'd' then Some(Red)
    else if i + 5 <= |s| && s[i] == 'g' && s[i + 1] == 'r' && s[i + 2] == 'e' && s[i + 3] == 'e' && s[i + 4] == 'n' then Some(Green)
    else if i + 4 <= |s| && s[i] == 'b' && s[i + 1] == 'l' && s[i + 2] == 'u' && s[i + 3] == 'e' then Some(Blue)
    else None
  }

  /** The digits of a match tried at i: after the leading white space. */
  function DigitsStart(s: string, i: nat): (a: nat)
    requires i <= |s|
    ensures i <= a <= |s|
  {
    SpacesEnd(s, i)
  }

  /** Where the colour name of a match tried at i would start. */
  function NameStart(s: string, i: nat): (c: nat)
    requires i <= |s|
    ensures c <= |s|
  {
    SpacesEnd(s, DigitsEnd(s, DigitsStart(s, i)))
  }

  /** colorsRe matches at i: white space, at least one digit, at least one
      white space character, then a colour name.  The pattern's greedy
      parts cannot give anything back here, since a shorter run of spaces
      is followed by a space and a shorter run of digits by a digit. */
  predicate MatchesAt(s: string, i: nat)
    requires i <= |s|
  {
    var b := DigitsEnd(s, DigitsStart(s, i));
    DigitsStart(s, i) < b < NameStart(s, i) && ColorAt(s, NameStart(s, i)).Some?
  }

  /** The value of the digits s[a..e], most significant first. */
  function SpanValue(s: string, a: nat, e: nat): nat
    requires a <= e <= |s| && forall k :: a <= k < e ==> IsDigit(s[k])
    decreases e - a
  {
    if e == a then 0 else SpanValue(s, a, e - 1) * 10 + DigitValue(s[e - 1])
  }

  /** SpanValue is the value strconv.Atoi gives the digit group. */
  lemma {:induction false} SpanValueIsDecimal(s: string, a: nat, e: nat)
    requires a <= e <= |s| && forall k :: a <= k < e ==> IsDigit(s[k])
    ensures AllDigits(s[a..e]) && SpanValue(s, a, e) == DecimalValue(s[a..e])
    decreases e - a
  {
    if e > a {
      SpanValueIsDecimal(s, a, e - 1);
      assert s[a..e][..e - a - 1] == s[a..e - 1];
    }
  }

  /** The submatches of the match at i, read as a count and a colour. */
  function DrawAt(s: string, i: nat): Draw
    requires i <= |s| && MatchesAt(s, i)
  {
    var a := DigitsStart(s, i);
    DigitsEndDigits(s, a);
    Draw(SpanValue(s, a, DigitsEnd(s, a)), ColorAt(s, NameStart(s, i)).value)
  }

  /** The end of the match at i, past the trailing white space. */
  function EndAt(s: string, i: nat): (e: nat)
    requires i <= |s| && MatchesAt(s, i)
    ensures i < e <= |s|
  {
    var c := NameStart(s, i);
    SpacesEnd(s, c + |Name(ColorAt(s, c).value)|)
  }

  /** The matches of colorsRe that start at or after i. */
  function DrawsFrom(s: string, i: nat): seq<Draw>
    requires i <= |s|
    decreases |s| - i
  {
    if i == |s| then []
    else if MatchesAt(s, i) then [DrawAt(s, i)] + DrawsFrom(s, EndAt(s, i))
    else DrawsFrom(s, i + 1)
  }

  /** colorsRe.FindAllStringSubmatch(s, -1). */
  function Draws(s: string): seq<Draw>
  {
    DrawsFrom(s, 0)
  }

  // ---------------------------------------------------------------------
  // parseColors.

  /** The counts a handful leaves: each match sets its colour, so a later
      mention of a colour overrides an earlier one, and a colour never
      mentioned stays 0. */
  function LastWins(ds: seq<Draw>): Counts
  {
    if ds == [] then Zero
    else
      var d := ds[|ds| - 1];
      LastWins(ds[..|ds| - 1]).With(d.color, d.count)
  }

  /** One more draw sets its colour. */
  lemma LastWinsSnoc(ds: seq<Draw>, d: Draw)
    ensures LastWins(ds + [d]) == LastWins(ds).With(d.color, d.count)
  {
    assert (ds + [d])[..|ds|] == ds;
  }

  /** A handful of one, two or three draws. */
  lemma LastWinsOfFew(x: Draw, y: Draw, z: Draw)
    ensures LastWins([x]) == Zero.With(x.color, x.count)
    ensures LastWins([x, y]) == LastWins([x]).With(y.color, y.count)
    ensures LastWins([x, y, z]) == LastWins([x, y]).With(z.color, z.count)
  {
    LastWinsSnoc([], x);
    LastWinsSnoc([x], y);
    LastWinsSnoc([x, y], z);
    assert [x] + [y] == [x, y];
    assert [x, y] + [z] == [x, y, z];
  }

  /** The draw at k is the last one of colour c. */
  predicate LastOfColor(ds: seq<Draw>, c: Color, k: int)
  {
    0 <= k < |ds| && ds[k].color == c && forall j :: k < j < |ds| ==> ds[j].color != c
  }

  /** LastWins gives each colour the count of its last mention, or 0 when
      the colour is not mentioned. */
  lemma {:induction false} LastWinsSpec(ds: seq<Draw>, c: Color)
    ensures (forall j :: 0 <= j < |ds| ==> ds[j].color != c) ==> LastWins(ds).Get(c) == 0
    ensures forall k :: LastOfColor(ds, c, k) ==> LastWins(ds).Get(c) == ds[k].count
  {
    if ds != [] {
      var n := |ds| - 1;
      var init := ds[..n];
      LastWinsSpec(init, c);
      forall k | LastOfColor(ds, c, k) ensures LastWins(ds).Get(c) == ds[k].count {
        if k < n {
          assert LastOfColor(init, c, k);
        }
      }
    }
  }

  /** Every count LastWins leaves is a count of the handful or 0. */
  lemma {:induction false} LastWinsNonNegative(ds: seq<Draw>, c: Color)
    ensures LastWins(ds).Get(c) >= 0
  {
    if ds != [] {
      LastWinsNonNegative(ds[..|ds| - 1], c);
    }
  }

  /** parseColors: the loop over the matches of colorsRe in s.  The source's
      error panics (strconv.Atoi on a digit group, a fourth colour) cannot
      be reached. */
  method ParseColors(s: string) returns (r: int, g: int, b: int)
    ensures Counts(r, g, b) == LastWins(Draws(s))
  {
    var ms := Draws(s);
    r, g, b := 0, 0, 0;
    for k := 0 to |ms|
      invariant Counts(r, g, b) == LastWins(ms[..k])
    {
      assert ms[..k + 1][..k] == ms[..k];
      var v := ms[k].count;
      match ms[k].color
      case Red => r := v;
      case Green => g := v;
      case Blue => b := v;
    }
    assert ms[..|ms|] == ms;
  }

  // ---------------------------------------------------------------------
  // maxColors.

  /** The counts of one ';' segment. */
  function HandfulCounts(seg: string): Counts
  {
    LastWins(Draws(seg))
  }

  function Max(x: int, y: int): int
  {
    if y > x then y else x
  }

  /** The per-colour maximum of two counts. */
  function Higher(m: Counts, l: Counts): Counts
  {
    Counts(Max(m.red, l.red), Max(m.green, l.green), Max(m.blue, l.blue))
  }

  /** The per-colour maximum over the segments, starting from 0. */
  function MaxOver(segs: seq<string>): Counts
  {
    if segs == [] then Zero
    else Higher(MaxOver(segs[..|segs| - 1]), HandfulCounts(segs[|segs| - 1]))
  }

  lemma MaxOverSnoc(segs: seq<string>, k: nat)
    requires k < |segs|
    ensures MaxOver(segs[..k + 1]) == Higher(MaxOver(segs[..k]), HandfulCounts(segs[k]))
  {
    assert segs[..k + 1][..k] == segs[..k];
  }

  /** maxColors: the loop over the ';' segments of s. */
  method MaxColors(s: string) returns (r: int, g: int, b: int)
    ensures Counts(r, g, b) == MaxOver(Split(s, ';'))
  {
    var segs := Split(s, ';');
    r, g, b := 0, 0, 0;
    for k := 0 to |segs|
      invariant Counts(r, g, b) == MaxOver(segs[..k])
    {
      var lr, lg, lb := ParseColors(segs[k]);
      MaxOverSnoc(segs, k);
      if lr > r {
        r := lr;
      }
      if lg > g {
        g := lg;
      }
      if lb > b {
        b := lb;
      }
    }
    assert segs[..|segs|] == segs;
  }

  /** The maximum over the segments is the least upper bound of the
      segments' counts and 0: it is at least 0 and at least every segment's
      count, and it is 0 or one of them. */
  lemma {:induction false} MaxOverBounds(segs: seq<string>, c: Color)
    ensures MaxOver(segs).Get(c) >= 0
    ensures forall k :: 0 <= k < |segs| ==> HandfulCounts(segs[k]).Get(c) <= MaxOver(segs).Get(c)
    ensures MaxOver(segs).Get(c) == 0 ||
            exists k :: 0 <= k < |segs| && HandfulCounts(segs[k]).Get(c) == MaxOver(segs).Get(c)
  {
    if segs != [] {
      var n := |segs| - 1;
      var init := segs[..n];
      MaxOverBounds(init, c);
      var m := MaxOver(segs).Get(c);
      assert m == Max(MaxOver(init).Get(c), HandfulCounts(segs[n]).Get(c)) by {
        assert MaxOver(segs) == Higher(MaxOver(init), HandfulCounts(segs[n]));
      }
      forall k | 0 <= k < n ensures HandfulCounts(segs[k]).Get(c) <= m {
        assert init[k] == segs[k];
      }
      if m != 0 && m != HandfulCounts(segs[n]).Get(c) {
        var k :| 0 <= k < n && HandfulCounts(init[k]).Get(c) == MaxOver(init).Get(c);
        assert init[k] == segs[k];
      }
    }
  }

  /** A bag holds enough cubes for every handful of the segments exactly
      when it holds at least the maximum of each colour. */
  lemma FitsIffAtLeastMax(segs: seq<string>, bag: Counts)
    ensures (forall c: Color :: MaxOver(segs).Get(c) <= bag.Get(c)) <==>
            (forall c: Color :: 0 <= bag.Get(c) &&
               forall k :: 0 <= k < |segs| ==> HandfulCounts(segs[k]).Get(c) <= bag.Get(c))
  {
    forall c: Color
      ensures MaxOver(segs).Get(c) <= bag.Get(c) <==>
        0 <= bag.Get(c) && forall k :: 0 <= k < |segs| ==> HandfulCounts(segs[k]).Get(c) <= bag.Get(c)
    {
      FitsColor(segs, c, bag.Get(c));
    }
  }

  /** The same for one colour and v cubes of it. */
  lemma FitsColor(segs: seq<string>, c: Color, v: int)
    ensures MaxOver(segs).Get(c) <= v <==>
      0 <= v && forall k :: 0 <= k < |segs| ==> HandfulCounts(segs[k]).Get(c) <= v
  {
    MaxOverBounds(segs, c);
  }

  /** A colour that no handful mentions has maximum 0. */
  lemma {:induction false} MaxOverAbsent(segs: seq<string>, c: Color)
    requires forall k, j :: 0 <= k < |segs| && 0 <= j < |Draws(segs[k])| ==> Draws(segs[k])[j].color != c
    ensures MaxOver(segs).Get(c) == 0
  {
    MaxOverBounds(segs, c);
    forall k | 0 <= k < |segs| ensures HandfulCounts(segs[k]).Get(c) == 0 {
      LastWinsSpec(Draws(segs[k]), c);
    }
  }

  // ---------------------------------------------------------------------
  // Reading back what is written: the partner of the scanner.

  /** A draw as the puzzle writes it: " <count> <colour>". */
  function DrawText(d: Draw): string
  {
    " " + NatToString(d.count) + " " + Name(d.color)
  }

  /** A handful as the puzzle writes it: its draws joined by ','. */
  function HandfulText(ds: seq<Draw>): string
  {
    if |ds| <= 1 then (if ds == [] then "" else DrawText(ds[0]))
    else DrawText(ds[0]) + "," + HandfulText(ds[1..])
  }

  /** The handfuls joined by ';'. */
  function HandfulsText(hs: seq<seq<Draw>>): string
  {
    if |hs| <= 1 then (if hs == [] then "" else HandfulText(hs[0]))
    else HandfulText(hs[0]) + ";" + HandfulsText(hs[1..])
  }

  /** Each handful's text, in order. */
  function HandfulTexts(hs: seq<seq<Draw>>): (ts: seq<string>)
    ensures |ts| == |hs| && forall k :: 0 <= k < |hs| ==> ts[k] == HandfulText(hs[k])
  {
    if hs == [] then []
    else
      var ts := [HandfulText(hs[0])] + HandfulTexts(hs[1..]);
      assert forall k :: 0 < k < |hs| ==> ts[k] == HandfulText(hs[1..][k - 1]);
      ts
  }

  /** A game line as the puzzle writes it. */
  function GameLine(id: nat, hs: seq<seq<Draw>>): string
  {
    "Game " + NatToString(id) + ":" + HandfulsText(hs)
  }

  /** t is written in s from position p on. */
  predicate TextAt(s: string, p: nat, t: string)
  {
    p + |t| <= |s| && forall k :: 0 <= k < |t| ==> s[p + k] == t[k]
  }

  lemma {:induction false} DigitsEndPast(s: string, i: nat, j: nat)
    requires i <= j <= |s| && forall k :: i <= k < j ==> IsDigit(s[k])
    requires j == |s| || !IsDigit(s[j])
    ensures DigitsEnd(s, i) == j
    decreases j - i
  {
    if i < j {
      DigitsEndPast(s, i + 1, j);
    }
  }

  /** The parts of a draw's text, found in s. */
  lemma DrawTextAt(s: string, p: nat, d: Draw)
    requires TextAt(s, p, DrawText(d))
    ensures var n := |NatToString(d.count)|;
      && s[p] == ' ' && s[p + 1 + n] == ' '
      && TextAt(s, p + 1, NatToString(d.count))
      && TextAt(s, p + 2 + n, Name(d.color))
      && |DrawText(d)| == 2 + n + |Name(d.color)|
  {
    var num := NatToString(d.count);
    var n := |num|;
    var t := DrawText(d);
    assert t[0] == ' ' && t[1 + n] == ' ';
    forall k | 0 <= k < n ensures s[p + 1 + k] == num[k] {
      assert t[1 + k] == num[k];
    }
    forall k | 0 <= k < |Name(d.color)| ensures s[p + 2 + n + k] == Name(d.color)[k] {
      assert t[2 + n + k] == Name(d.color)[k];
    }
  }

  /** The colour name written at i is read as that colour. */
  lemma ColorAtName(s: string, i: nat, c: Color)
    requires TextAt(s, i, Name(c))
    ensures ColorAt(s, i) == Some(c)
  {
    assert s[i] == Name(c)[0];
    assert s[i + 1] == Name(c)[1];
    assert s[i + 2] == Name(c)[2];
    if c != Red {
      assert s[i + 3] == Name(c)[3];
    }
    if c == Green {
      assert s[i + 4] == Name(c)[4];
    }
  }

  /** White space ends at the first character that is not white space. */
  lemma SpacesEndAt(s: string, i: nat)
    requires i <= |s| && (i == |s| || !IsSpace(s[i]))
    ensures SpacesEnd(s, i) == i
  {
  }

  /** A single space followed by something else is skipped. */
  lemma SpacesEndOne(s: string, i: nat)
    requires i + 1 < |s| && s[i] == ' ' && !IsSpace(s[i + 1])
    ensures SpacesEnd(s, i) == i + 1
  {
    SpacesEndAt(s, i + 1);
  }

  /** Where the parts of a draw written at p are found by the scanner. */
  lemma DrawTextPositions(s: string, p: nat, d: Draw)
    requires TextAt(s, p, DrawText(d))
    ensures var n := |NatToString(d.count)|;
      && DigitsStart(s, p) == p + 1
      && DigitsEnd(s, p + 1) == p + 1 + n
      && NameStart(s, p) == p + 2 + n
      && ColorAt(s, p + 2 + n) == Some(d.color)
      && s[p + 1..p + 1 + n] == NatToString(d.count)
  {
    var num := NatToString(d.count);
    var n := |num|;
    var c := p + 2 + n;
    DrawTextAt(s, p, d);
    assert IsDigit(s[p + 1]) by {
      assert s[p + 1] == num[0];
    }
    SpacesEndOne(s, p);
    assert forall k :: p + 1 <= k < p + 1 + n ==> IsDigit(s[k]) by {
      forall k | p + 1 <= k < p + 1 + n ensures IsDigit(s[k]) {
        assert s[p + 1 + (k - p - 1)] == num[k - p - 1];
      }
    }
    DigitsEndPast(s, p + 1, p + 1 + n);
    assert 'a' <= s[c] <= 'z' by {
      assert s[c] == Name(d.color)[0];
    }
    SpacesEndOne(s, p + 1 + n);
    ColorAtName(s, c, d.color);
    assert s[p + 1..p + 1 + n] == num;
  }

  /** A draw written at p, before a ',' or the end of s, is matched at p,
      read back as that draw, and the match ends where its text ends. */
  lemma MatchOfDrawText(s: string, p: nat, d: Draw)
    requires TextAt(s, p, DrawText(d))
    requires p + |DrawText(d)| == |s| || s[p + |DrawText(d)|] == ','
    ensures MatchesAt(s, p) && DrawAt(s, p) == d && EndAt(s, p) == p + |DrawText(d)|
  {
    var n := |NatToString(d.count)|;
    var c := p + 2 + n;
    DrawTextAt(s, p, d);
    DrawTextPositions(s, p, d);
    assert MatchesAt(s, p);
    SpanValueIsDecimal(s, p + 1, p + 1 + n);
    DecimalValueOfNatToString(d.count);
    assert SpanValue(s, p + 1, p + 1 + n) == d.count;
    assert DrawAt(s, p) == Draw(SpanValue(s, p + 1, p + 1 + n), d.color);
    SpacesEndAt(s, c + |Name(d.color)|);
  }

  /** No match starts at a ','. */
  lemma NoMatchAtComma(s: string, p: nat)
    requires p < |s| && s[p] == ','
    ensures !MatchesAt(s, p)
  {
    assert DigitsStart(s, p) == p;
  }

  /** A handful of two or more draws written at p: its first draw, a ','
      and the rest. */
  lemma HandfulTextParts(s: string, p: nat, ds: seq<Draw>)
    requires |ds| > 1 && TextAt(s, p, HandfulText(ds))
    ensures var q := p + |DrawText(ds[0])|;
      && TextAt(s, p, DrawText(ds[0]))
      && q < |s| && s[q] == ','
      && TextAt(s, q + 1, HandfulText(ds[1..]))
      && |HandfulText(ds)| == |DrawText(ds[0])| + 1 + |HandfulText(ds[1..])|
  {
    assert "," == [','];
    TextAtJoined(s, p, DrawText(ds[0]), ',', HandfulText(ds[1..]));
  }

  /** Two texts joined by a separator, written at p: the first at p, the
      separator after it and the second after that. */
  lemma TextAtJoined(s: string, p: nat, t: string, sep: char, h: string)
    requires TextAt(s, p, t + [sep] + h)
    ensures var q := p + |t|;
      && TextAt(s, p, t) && q < |s| && s[q] == sep && TextAt(s, q + 1, h)
  {
    var w, q := t + [sep] + h, p + |t|;
    forall k | 0 <= k < |t| ensures s[p + k] == t[k] {
      assert w[k] == t[k];
    }
    assert w[|t|] == sep;
    forall k | 0 <= k < |h| ensures s[q + 1 + k] == h[k] {
      assert w[|t| + 1 + k] == h[k];
    }
  }

  /** The draws of a handful written from p to the end of s are read back. */
  lemma {:induction false} DrawsOfHandfulAt(s: string, p: nat, ds: seq<Draw>)
    requires TextAt(s, p, HandfulText(ds)) && p + |HandfulText(ds)| == |s|
    ensures DrawsFrom(s, p) == ds
    decreases |ds|
  {
    if |ds| == 1 {
      MatchOfDrawText(s, p, ds[0]);
      assert DrawsFrom(s, |s|) == [];
    } else if |ds| > 1 {
      HandfulTextParts(s, p, ds);
      var q := p + |DrawText(ds[0])|;
      MatchOfDrawText(s, p, ds[0]);
      assert DrawsFrom(s, p) == [ds[0]] + DrawsFrom(s, q);
      NoMatchAtComma(s, q);
      assert DrawsFrom(s, q) == DrawsFrom(s, q + 1);
      DrawsOfHandfulAt(s, q + 1, ds[1..]);
      assert ds == [ds[0]] + ds[1..];
    }
  }

  /** colorsRe reads a written handful back as its draws. */
  lemma DrawsOfHandful(ds: seq<Draw>)
    ensures Draws(HandfulText(ds)) == ds
  {
    DrawsOfHandfulAt(HandfulText(ds), 0, ds);
  }

  /** The text of a handful holds no ';' and no ':'. */
  lemma {:induction false} HandfulTextChars(ds: seq<Draw>)
    ensures ';' !in HandfulText(ds) && ':' !in HandfulText(ds)
    decreases |ds|
  {
    if |ds| >= 1 {
      DrawTextChars(ds[0]);
      if |ds| > 1 {
        HandfulTextChars(ds[1..]);
        assert "," == [','];
        NotInJoined(';', DrawText(ds[0]), ',', HandfulText(ds[1..]));
        NotInJoined(':', DrawText(ds[0]), ',', HandfulText(ds[1..]));
      }
    }
  }

  /** A draw's text holds only spaces, digits and lower-case letters. */
  lemma DrawTextChars(d: Draw)
    ensures ';' !in DrawText(d) && ':' !in DrawText(d)
  {
    var t, num := DrawText(d), NatToString(d.count);
    forall k | 0 <= k < |t| ensures t[k] == ' ' || IsDigit(t[k]) || 'a' <= t[k] <= 'z' {
      if 1 <= k < 1 + |num| {
        assert t[k] == num[k - 1];
      } else if k >= 2 + |num| {
        assert t[k] == Name(d.color)[k - 2 - |num|];
      }
    }
  }

  /** Splitting the handfuls' text on ';' gives each handful's text. */
  lemma {:induction false} SplitHandfuls(hs: seq<seq<Draw>>)
    requires hs != []
    ensures ':' !in HandfulsText(hs)
    ensures Split(HandfulsText(hs), ';') == HandfulTexts(hs)
    decreases |hs|
  {
    var h := HandfulText(hs[0]);
    HandfulTextChars(hs[0]);
    if |hs| == 1 {
      assert Split(h, ';') == [h];
    } else {
      var rest := HandfulsText(hs[1..]);
      SplitHandfuls(hs[1..]);
      SplitCons(h, ';', rest);
      HandfulsTextCons(hs);
      NotInJoined(':', h, ';', rest);
    }
  }

  /** The text of two or more handfuls: the first, ';', then the others. */
  lemma HandfulsTextCons(hs: seq<seq<Draw>>)
    requires |hs| >= 2
    ensures HandfulsText(hs) == HandfulText(hs[0]) + [';'] + HandfulsText(hs[1..])
    ensures HandfulTexts(hs) == [HandfulText(hs[0])] + HandfulTexts(hs[1..])
  {
    assert ";" == [';'];
  }

  /** A character in neither part nor the separator is not in the whole. */
  lemma NotInJoined(x: char, a: string, sep: char, b: string)
    requires x !in a && x != sep && x !in b
    ensures x !in a + [sep] + b
  {
  }

  /** A written game line reads back as its ID and the per-colour maxima of
      its handfuls. */
  lemma GameLineReads(id: nat, hs: seq<seq<Draw>>)
    requires hs != []
    ensures GameIDAndColorString(GameLine(id, hs)) == (id, HandfulsText(hs))
    ensures MaxOver(Split(HandfulsText(hs), ';')) == MaxOfDraws(hs)
  {
    SplitHandfuls(hs);
    GameIDOfLine(id, HandfulsText(hs));
    MaxOverOfHandfuls(HandfulTexts(hs), hs);
  }

  /** The per-colour maxima over handfuls given as draws. */
  function MaxOfDraws(hs: seq<seq<Draw>>): Counts
  {
    if hs == [] then Zero
    else
      Higher(MaxOfDraws(hs[..|hs| - 1]), LastWins(hs[|hs| - 1]))
  }

  /** One more handful raises the maxima to its counts. */
  lemma MaxOfDrawsSnoc(hs: seq<seq<Draw>>, h: seq<Draw>)
    ensures MaxOfDraws(hs + [h]) == Higher(MaxOfDraws(hs), LastWins(h))
  {
    assert (hs + [h])[..|hs|] == hs;
  }

  /** Two or three handfuls. */
  lemma MaxOfFew(a: seq<Draw>, b: seq<Draw>, c: seq<Draw>)
    ensures MaxOfDraws([a, b]) == Higher(Higher(Zero, LastWins(a)), LastWins(b))
    ensures MaxOfDraws([a, b, c]) == Higher(MaxOfDraws([a, b]), LastWins(c))
  {
    MaxOfDrawsSnoc([], a);
    MaxOfDrawsSnoc([a], b);
    MaxOfDrawsSnoc([a, b], c);
    assert [a] + [b] == [a, b];
    assert [a, b] + [c] == [a, b, c];
  }

  lemma {:induction false} MaxOverOfHandfuls(segs: seq<string>, hs: seq<seq<Draw>>)
    requires |segs| == |hs| && forall k :: 0 <= k < |hs| ==> segs[k] == HandfulText(hs[k])
    ensures MaxOver(segs) == MaxOfDraws(hs)
    decreases |hs|
  {
    if hs != [] {
      var n := |hs| - 1;
      MaxOverOfHandfuls(segs[..n], hs[..n]);
      DrawsOfHandful(hs[n]);
    }
  }

  /** The five games of the puzzle's example, as handfuls of draws. */
  const Example: seq<seq<seq<Draw>>> :=
    [[[Draw(3, Blue), Draw(4, Red)], [Draw(1, Red), Draw(2, Green), Draw(6, Blue)], [Draw(2, Green)]],
     [[Draw(1, Blue), Draw(2, Green)], [Draw(3, Green), Draw(4, Blue), Draw(1, Red)], [Draw(1, Green), Draw(1, Blue)]],
     [[Draw(8, Green), Draw(6, Blue), Draw(20, Red)], [Draw(5, Blue), Draw(4, Red), Draw(13, Green)], [Draw(5, Green), Draw(1, Red)]],
     [[Draw(1, Green), Draw(3, Red), Draw(6, Blue)], [Draw(3, Green), Draw(6, Red)], [Draw(3, Green), Draw(15, Blue), Draw(14, Red)]],
     [[Draw(6, Red), Draw(1, Blue), Draw(3, Green)], [Draw(2, Blue), Draw(1, Red), Draw(2, Green)]]]

  /** The example document: game k + 1 is written with the handfuls
      Example[k]. */
  function ExampleDocument(): (doc: seq<string>)
    ensures |doc| == 5
  {
    seq(5, k requires 0 <= k < 5 => GameLine(k + 1, Example[k]))
  }

  /** The per-colour maxima of the example's games. */
  const ExampleMax: seq<Counts> :=
    [Counts(4, 2, 6), Counts(1, 3, 4), Counts(20, 13, 6), Counts(14, 3, 15), Counts(6, 3, 2)]

  /** The maxima of each example game. */
  lemma ExampleMaxima(k: nat)
    requires k < 5
    ensures MaxOfDraws(Example[k]) == ExampleMax[k]
  {
    var e := Example[k];
    if k == 0 {
      LastWinsOfFew(Draw(3, Blue), Draw(4, Red), Draw(4, Red));
      LastWinsOfFew(Draw(1, Red), Draw(2, Green), Draw(6, Blue));
      LastWinsOfFew(Draw(2, Green), Draw(2, Green), Draw(2, Green));
      MaxOfFew(e[0], e[1], e[2]);
    } else if k == 1 {
      LastWinsOfFew(Draw(1, Blue), Draw(2, Green), Draw(2, Green));
      LastWinsOfFew(Draw(3, Green), Draw(4, Blue), Draw(1, Red));
      LastWinsOfFew(Draw(1, Green), Draw(1, Blue), Draw(1, Blue));
      MaxOfFew(e[0], e[1], e[2]);
    } else if k == 2 {
      LastWinsOfFew(Draw(8, Green), Draw(6, Blue), Draw(20, Red));
      LastWinsOfFew(Draw(5, Blue), Draw(4, Red), Draw(13, Green));
      LastWinsOfFew(Draw(5, Green), Draw(1, Red), Draw(1, Red));
      MaxOfFew(e[0], e[1], e[2]);
    } else if k == 3 {
      LastWinsOfFew(Draw(1, Green), Draw(3, Red), Draw(6, Blue));
      LastWinsOfFew(Draw(3, Green), Draw(6, Red), Draw(6, Red));
      LastWinsOfFew(Draw(3, Green), Draw(15, Blue), Draw(14, Red));
      MaxOfFew(e[0], e[1], e[2]);
    } else {
      LastWinsOfFew(Draw(6, Red), Draw(1, Blue), Draw(3, Green));
      LastWinsOfFew(Draw(2, Blue), Draw(1, Red), Draw(2, Green));
      MaxOfFew(e[0], e[1], e[1]);
    }
  }
}
