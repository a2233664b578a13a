# Advent of Code 2023 solvers, modelled in Dafny

This project models the core of a set of small Advent of Code 2023 solvers.
Each solver reads a puzzle document line by line and computes a number. The
model covers these parts:

- **Gondola engine schematic** (`schematic.dfy`, module `Gondola`).
  - `lineToCells` builds the cells of a row: one shared number cell per
    digit run, and one rune cell per symbol.
  - `Compact` and `linkAdjacent` link every cell to its eight neighbours,
    in place.
  - `PartNumbers` collects the numbers next to a symbol. It deduplicates
    them by cell identity, then sorts them.
  - `rawSchematic.String` renders the grid back to text.
  - Go's pointers to `Cell` become indexes into an arena, the class
    `Arena`. "The same cell" is therefore index equality.
- **Calibration values.**
  - The first star (`one.dfy`) reads the first and last decimal digit of
    a line.
  - The second star (`two.dfy`) reads the first and last digit token of a
    line. A token is a digit or a spelled-out digit, and overlapping words
    all count.
- **Cube games.**
  - The shared line parsing of the third and fourth stars (`cubes.dfy`):
    `gameIDAndColorString`, `parseColors` and `maxColors`.
  - The feasibility test and the sum of possible IDs (`three.dfy`).
  - The power of the fewest cubes and its sum (`four.dfy`).
- **Scratch cards.**
  - The seventh star (`seven.dfy`): the winning and held lists, their
    intersection, and the points 2^(m-1).
  - The eighth star (`eight.dfy`): parsing a card to an ID and a match
    count. `Cards.Count` runs a worklist that grows while it is iterated
    and bumps a count array in place.
- **Shared helpers.**
  - `util.Sum` (`util.dfy`).
  - The scanners that stand in for the regular expressions and for
    `strconv`/`strings` (`text.dfy`).
  - The library sort (`sorting.dfy`).
  - `Option`/`Result` (`wrappers.dfy`).

A document is a sequence of lines (`seq<string>`). A line is a `string`
whose characters stand for the bytes of the Go string. Integers are
unbounded.

## Model

| member | source | states |
|---|---|---|
| Util.Sum | util/util.go:15-20 | The accumulator loop returns `Total(s)`, the left-to-right sum; the empty slice sums to 0 |
| Util.TotalSnoc | util/util.go:16-18 | Appending v to the slice adds v to the sum |
| Util.TotalConcat | util/util.go:15-20 | The sum of a concatenation is the sum of the two sums |
| Util.TotalNonNegative | util/util.go:15-20 | A slice of non-negative values has a non-negative sum |
| Util.TotalIncrement | stars/eight/cards.go:99-101 | Adding one to one entry of the count array adds one to its sum |
| Util.Intersection | stars/seven/cards.go:47-49 | The set intersection's values: strictly increasing, and x is listed iff it is in both slices |
| Util.IntersectionSize | stars/eight/cards.go:66 | The intersection's length is the size of the intersection of the two sets of values |
| Util.IntersectionIs | stars/seven/cards.go:47-49 | Any strictly increasing list of exactly the common values is the intersection |
| Sorting.Sort | gondola/schematic.go:107-109 | The library sort's result is ascending and a permutation of its input |
| Text.ParseNumbers | stars/seven/cards.go:30-36 | The loop over the matches of `\d+` that converts each with Atoi yields `Numbers(w)`, the values of the maximal digit runs in order |
| Text.NumbersAreRunValues | stars/seven/cards.go:30-36 | Numbers has one entry per maximal digit run, and each entry is that run's decimal value |
| Text.RunsFromAreRuns | gondola/schematic.go:245 | Every match of `\d+` is a maximal digit run at or after the start |
| Text.RunsFromOrdered | gondola/schematic.go:245 | The matches of `\d+` are disjoint and left to right |
| Text.RunsFromCover | gondola/schematic.go:245 | Every digit lies in one of the matches of `\d+` |
| Text.NumbersOfSpaced | stars/seven/cards_test.go:19-23 | Numbers written with a space before each read back as themselves |
| Text.Index | stars/seven/cards.go:22-23 | strings.Index: -1 iff c is absent, otherwise the first position of c |
| Text.SplitPieces | stars/three/three.go:33 | No piece of strings.Split contains the separator |
| Text.JoinSplit | stars/three/three.go:72 | Joining the pieces of a split with the separator gives the text back |
| Text.SplitTwo | stars/three/three.go:33-36 | Split on c gives two pieces iff c occurs exactly once; the pieces are the text on either side of it |
| Text.TrimPrefix | stars/three/three.go:38 | strings.TrimPrefix removes the prefix when it is one, and otherwise leaves the text as it is |
| Text.AtoiOfItoa | gondola/schematic.go:44 | strconv.Atoi reads back what strconv.Itoa wrote, for every integer |
| Text.NatToStringOfDecimalValue | gondola/schematic.go:249 | A digit run without a leading zero prints back as itself from its value |
| Gondola.Value.Number | gondola/schematic.go:23-28 | The flag is true iff a number is held; then the number is returned, otherwise 0 |
| Gondola.Value.Rune | gondola/schematic.go:31-36 | The flag is true iff a rune is held; then the rune is returned, otherwise 0 |
| Gondola.Value.String | gondola/schematic.go:39-50 | A number prints as text that Atoi reads back as it; otherwise the rune; otherwise "." |
| Gondola.ReverseInvolution | gondola/schematic.go:132-153 | Reverse is an involution without a fixed point: NW/SE, N/S, NE/SW and E/W are paired |
| Gondola.Adjacent | gondola/schematic.go:161-172 | Exactly the eight distinct points at Chebyshev distance 1 |
| Gondola.AdjacentOfOrigin | gondola/schematic_test.go:13-42 | The neighbours of (0,0), clockwise from the north-west, as the test lists them |
| Gondola.AdjacentReverse | gondola/schematic.go:132-172 | Stepping in direction d and then in Reverse(d) returns to the start |
| Gondola.ValidWithinGrid | gondola/schematic.go:174-176 | On a rectangular grid, ValidWithin the extents holds iff the point indexes a cell |
| Gondola.Arena.NewCell | gondola/schematic.go:253-257 | Allocates one fresh cell holding the value, with eight nil slots, and changes nothing else |
| Gondola.Arena.LineToCells | gondola/schematic.go:244-270 | The row has one entry per character. Each digit run shares one fresh cell holding the run's value. Each symbol gets its own fresh rune cell. '.' is nil. No other cell is shared. Existing cells are unchanged |
| Gondola.Arena.PlaceNumbers | gondola/schematic.go:248-261 | One new cell per match of `\d+`, in order. It holds the run's value and fills the run's columns; every other column is nil |
| Gondola.Arena.AddNumber | gondola/schematic.go:249-260 | One iteration of the number loop: the k-th run gets the next cell, at every column of the run |
| Gondola.FillRun | gondola/schematic.go:258-260 | Columns start..end-1 get the cell and the other columns keep theirs |
| Gondola.Arena.PlaceSymbols | gondola/schematic.go:262-268 | Each symbol column gets a fresh rune cell of its own; other columns keep their cells |
| Gondola.LineCellsDone | gondola/schematic.go:244-270 | The facts the two loops leave behind amount to the row description RowOf |
| Gondola.Arena.RawFromDocument | gondola/schematic.go:272-281 | One row per line, each the line's cells, no cell shared between rows, all cells fresh and unlinked |
| Gondola.GridOfRunesUnique | gondola/schematic.go:244-270 | In a parsed document each rune cell sits at one position, and no cell holds both a number and a rune |
| Gondola.Arena.LinkPair | gondola/schematic.go:192-197 | Slot d of the cell then holds its d-neighbour. The rune cell's other slots are untouched. Slots of rune cells that were sound (a neighbour or nil) or settled stay so, after both links are written |
| Gondola.Arena.LinkAdjacent | gondola/schematic.go:180-200 | Sound and settled slots of rune cells stay so. A rune cell at loc whose slots were sound ends up with every slot settled: its neighbour, or nil where there is none |
| Gondola.Arena.CompactRow | gondola/schematic.go:206-214 | Appends the row's rune cells to the listing and settles the slots of every rune cell of that row |
| Gondola.Arena.Compact | gondola/schematic.go:203-217 | Lists exactly the rune cells in row-major order. Afterwards slot d of every rune cell holds the cell at its d-neighbour, or nil when that position is empty or off the grid. Values are unchanged |
| Gondola.GridRunesMembers | gondola/schematic.go:205-212 | A cell is listed iff it is a rune cell somewhere in the grid; numbers are never listed |
| Gondola.GridRunesOfEmpty | gondola/schematic_test.go:133-136 | An empty or all-nil grid compacts to an empty schematic |
| Gondola.RuneLinksMutual | gondola/schematic.go:196-197 | Seen from rune cells, links are mutual: if A holds B in slot d, B holds A in slot Reverse(d) |
| Gondola.Arena.FromDocument | gondola/schematic.go:285-287 | The grid is the document's cells; the schematic lists its rune cells, and they are linked as Compact promises |
| Gondola.Arena.ValidAdjacent | gondola/schematic.go:78-85 | Returns the non-nil slots of the cell in slot order, a cell that fills several slots once per slot (`NonNil`); a cell is listed iff some slot holds it |
| Gondola.NonNilMembers | gondola/schematic.go:78-85 | The filtered list holds exactly the cells found in some slot |
| Gondola.NonNilLength | gondola/schematic.go:78-85 | The filtered list has one entry per non-nil slot |
| Gondola.Arena.NumberCells | gondola/schematic.go:95-103 | The map's keys are exactly the numeric cells in a slot of a listed rune cell, each with its value |
| Gondola.MapValues | gondola/schematic.go:104-106 | Each value occurs as often as there are keys mapped to it |
| Gondola.Arena.PartNumbers | gondola/schematic.go:94-111 | Ascending. Each value v occurs once per distinct numeric cell holding v in a slot of some rune cell, however often that cell is reached |
| Gondola.PartCellsAreNextToSymbols | gondola/schematic.go:94-111 | After Compact, the cells PartNumbers reports are exactly the numeric cells next to some symbol of the grid |
| Gondola.Arena.RenderRow | gondola/schematic.go:224-231 | Writes each cell of the row, skipping a repeat of the cell just written |
| Gondola.Arena.String | gondola/schematic.go:220-237 | The rows' texts joined by newlines, with no newline after the last row |
| Gondola.RowRoundTrip | gondola/schematic.go:39-50 | Rendering the cells of an ASCII line without leading-zero numbers writes the line back |
| Gondola.RoundTrip | gondola/schematic_test.go:196-223 | rawFromDocument(doc).String() equals the document, when every line is ASCII and no number has a leading zero |
| One.DigitPositionsSound | stars/one/one.go:23 | The scanner for `\d` lists only digit positions, in increasing order |
| One.DigitPositionsComplete | stars/one/one.go:23 | The scanner misses no digit |
| One.LineValue | stars/one/one.go:22-33 | The value is at most 99 |
| One.LineValueNoDigit | stars/one/one.go:25-27 | A line without a digit is worth 0 |
| One.LineValueFirstLast | stars/one/one.go:28-32 | Otherwise it is 10 times the first digit plus the last digit |
| One.LineValueRange | stars/one/one.go:28-32 | With no '0' digit, a line with a digit is worth 11 to 99 |
| One.LineValueOneDigit | stars/one/one_test.go:15 | A single-digit line repeats its digit |
| One.LineExamples | stars/one/one_test.go:14-16 | "" is 0, "treb7uchet" 77 and "a1b2c3d4e5f" 15; the document's lines are 12 and 38 |
| One.FromDocument | stars/one/one.go:35-44 | The loop returns the sum of the line values |
| One.DocumentValueBounds | stars/one/one.go:35-44 | The sum lies between 0 and 99 per line |
| One.DocumentExample | stars/one/one_test.go:43-48 | The example document sums to 142 |
| Two.DigitSpansExact | stars/two/two.go:22 | `\d` finds exactly the one-character spans of digits |
| Two.WordSpansExact | stars/two/two.go:27-35 | A word's pattern finds every occurrence of the word, since no two occurrences of one of the nine words overlap |
| Two.CollectExact | stars/two/two.go:56-58 | The appended results hold exactly the matches of the matchers |
| Two.SortSpansFacts | stars/two/two.go:59-65 | The sort orders by start, then end, and keeps every span |
| Two.FindAllStringIndex | stars/two/two.go:55-67 | The merged list is sorted by (start, end) and holds exactly the tokens of the line, overlapping ones included |
| Two.MatchesEnds | stars/two/two.go:71-75 | The merged list is empty iff the line has no token; otherwise it starts with the first token and ends with the last |
| Two.TokenFacts | stars/two/two.go:80-90 | A one-character token is a digit, and a longer one is a key of the words map that maps to a digit |
| Two.TokenDigitOf | stars/two/two.go:21-48 | A digit stands for itself, and the word of matcher j for the digit j |
| Two.LineValue | stars/two/two.go:70-96 | The value is at most 99 |
| Two.LineValueNoToken | stars/two/two.go:72-75 | A line without a digit and without a spelled-out digit is worth 0 |
| Two.LineValueFirstLast | stars/two/two.go:77-96 | Otherwise it is 10 times the digit of the first token plus that of the last |
| Two.LineValueRange | stars/two/two.go:77-96 | A line with a token and no '0' is worth at least 11 |
| Two.LineValueByScan | stars/two/two.go:70-96 | The value equals an independent reading that scans for the leftmost and the rightmost token |
| Two.ExampleSingle | stars/two/two_test.go:15 | "treb7uchet" is worth 77 |
| Two.ExampleMany | stars/two/two_test.go:16 | "a1b2c3d4e5f" is worth 15 |
| Two.ExampleMixed | stars/two/two_test.go:17 | "two1nine" is worth 29 |
| Two.ExampleSpelled | stars/two/two_test.go:18 | "eightwothree" is worth 83: overlapping words are both found |
| Two.ExampleGarbage | stars/two/two_test.go:19 | "abcone2threexyz" is worth 13 |
| Two.ExampleTeens | stars/two/two_test.go:20 | "7pqrstsixteen" is worth 76, from the "six" inside "sixteen" |
| Two.ExampleOverlaps | stars/two/two_test.go:21 | "2zoneight" is worth 28 |
| Two.ExampleZero | stars/two/two_test.go:14 | The empty line is worth 0 |
| Two.FromDocument | stars/two/two.go:101-110 | The loop returns the sum of the line values |
| Two.DocumentValueBounds | stars/two/two.go:101-110 | The sum lies between 0 and 99 per line |
| Two.DocumentExample | stars/two/two_test.go:47-55 | The example document sums to 281 |
| CubeGames.GameIDAndColorString | stars/three/three.go:32-44 | The result is either (0, "") or comes from the only ':' of the line: the ID parsed from the text before it less "Game ", and the colours after it |
| CubeGames.GameIDAtColon | stars/three/three.go:32-44 | A line with exactly one ':' whose text before it, less "Game ", parses as an integer gives that integer and the text after the ':' (e.g. "12: 3 red" gives 12) |
| CubeGames.GameIDNotANumber | stars/three/three.go:37-41 | A line with exactly one ':' whose ID text does not parse gives ID 0 and no colours |
| CubeGames.GameIDWithoutColon | stars/three/three.go:33-36 | A line without ':' gives ID 0 and no colours |
| CubeGames.GameIDTwoColons | stars/three/three.go:33-36 | A line with two ':' gives ID 0 and no colours |
| CubeGames.GameIDOfLine | stars/three/three.go:32-44 | "Game <id>:" and colours without ':' give the ID and the colours back |
| CubeGames.ParseColors | stars/three/three.go:48-69 | The loop over the matches of colorsRe gives each colour the count of its last mention in the segment, or 0 |
| CubeGames.LastWinsSpec | stars/three/three.go:57-66 | A colour not mentioned is 0; otherwise it is the count of its last mention |
| CubeGames.LastWinsNonNegative | stars/three/three.go:53-63 | Every count parseColors leaves is at least 0 |
| CubeGames.DrawsOfHandful | stars/three/three.go:46-49 | colorsRe reads a written handful back as its draws, in order |
| CubeGames.MaxColors | stars/three/three.go:71-85 | The loop over the ';' segments gives the per-colour maximum over the segments, starting from 0 |
| CubeGames.MaxOverBounds | stars/three/three.go:71-85 | The maximum is at least 0 and at least every segment's count, and it is 0 or one of those counts |
| CubeGames.FitsIffAtLeastMax | stars/three/three.go:71-85 | A bag fits every segment iff it holds at least the per-colour maxima |
| CubeGames.MaxOverAbsent | stars/four/four.go:73-87 | A colour that no segment mentions has maximum 0 |
| CubeGames.GameLineReads | stars/three/three.go:87-93 | A written game line reads back as its ID, and its maxima are those of its handfuls |
| CubeGames.ExampleMaxima | stars/three/three_test.go:43-47 | The per-colour maxima of the five example games |
| Three.ParseGame | stars/three/three.go:87-93 | The game's ID and maxima are those of gameIDAndColorString and maxColors |
| Three.EmptyLine | stars/three/three_test.go:17 | The empty line parses to the zero Game |
| Three.MalformedLine | stars/three/three.go:32-44 | A line without exactly one ':' parses to the zero Game |
| Three.PossibleIffEveryHandfulFits | stars/three/three.go:28-30 | Possible(r,g,b) holds iff the bag is non-negative and holds at least every handful's count of each colour |
| Three.PossibleMonotone | stars/three/three.go:28-30 | A bag with more cubes of every colour keeps a possible game possible |
| Three.Game4Example | stars/three/three_test.go:18-20 | The "Game 4" line parses to ID 4 with maxima 14 red, 3 green and 15 blue |
| Three.FromDocument | stars/three/three.go:97-110 | The loop returns the sum of the IDs of the possible games |
| Three.DocumentExample | stars/three/three_test.go:42-54 | With 12 red, 13 green and 14 blue cubes the example sums to 8 |
| Four.Power | stars/four/four.go:27-32 | A nil game has power 0, and so does a game with a zero minimum |
| Four.ParseGame | stars/four/four.go:89-95 | Never nil; the minima are the per-colour maxima over the segments |
| Four.MinimaAreFewest | stars/four/four.go:73-95 | A bag fits every handful iff it holds at least the minima, so they are the fewest cubes that do |
| Four.PowerNonNegative | stars/four/four.go:73-95 | Every minimum, and so every power, is at least 0 |
| Four.PowerZeroWhenColorAbsent | stars/four/four.go:27-32 | A colour that no handful mentions makes the power 0 |
| Four.PowerZeroWithoutColon | stars/four/four.go:34-46 | A line without ':' has power 0 |
| Four.PowerZeroWithoutColors | stars/four/four.go:34-46 | A line without colours has power 0 |
| Four.GameOfLine | stars/four/four.go:89-95 | A written game needs the maxima of its handfuls, and its power is their product |
| Four.FromDocument | stars/four/four.go:99-110 | The loop returns the sum of the powers |
| Four.DocumentPowerNonNegative | stars/four/four.go:99-110 | The sum of the powers is at least 0 |
| Four.DocumentExample | stars/four/four.go:99-110 | The third star's example games have powers 48, 12, 1560, 630 and 36, 2286 in all |
| Seven.Parse | stars/seven/cards.go:21-45 | Parse computes `CardOf(s)`: no numbers when ':' or '|' is missing, otherwise the digit runs between them and after '|' |
| Seven.CardOfMissing | stars/seven/cards_test.go:17 | A line without ':' or without '|' is the empty card |
| Seven.CardOfLine | stars/seven/cards_test.go:19-23 | A written card parses back to its winning and held lists in order, without the card number |
| Seven.Points | stars/seven/cards.go:56-59 | There are no points exactly when there are no matches |
| Seven.PointsDouble | stars/seven/cards.go:58 | The first match is worth 1 and every further match doubles the points |
| Seven.FromDocument | stars/seven/cards.go:52-65 | The loop returns the sum of the cards' points |
| Seven.DocumentPointsBounds | stars/seven/cards.go:52-65 | The points are at least 0, and at least one per card when every card has a match |
| Seven.ExampleMatch | stars/seven/cards_test.go:45-73 | The matches of the six example cards in ascending order, e.g. card 1 gives [17 48 83 86] |
| Seven.ExampleCard | stars/seven/cards_test.go:52-73 | Each line of the example parses to a card with those matches |
| Seven.DocumentExample | stars/seven/cards.go:52-65 | The example cards score 8, 2, 2, 1, 0 and 0 points, 13 in all |
| Eight.CardOf | stars/eight/cards.go:31-68 | An error iff ':' or '|' is missing; otherwise the first number of the line as the ID, and the count of distinct common values as the matches |
| Eight.Parse | stars/eight/cards.go:31-68 | Parse computes CardOf |
| Eight.EmptyLine | stars/eight/cards_test.go:18 | The empty line is an error |
| Eight.IdIsFirstNumber | stars/eight/cards.go:38-42 | The ID is the value of the digit run at the first digit of the line |
| Eight.MatchesAsSeven | stars/eight/cards.go:43-67 | The match count is the size of the intersection of the sets of winning and held numbers |
| Eight.CardOfLine | stars/eight/cards_test.go:20-21 | A written card parses to its ID and the number of distinct values its lists share |
| Eight.PendingStep | stars/eight/cards.go:95-103 | Taking a card off the worklist and appending the copies it wins leaves one card fewer to come; the copies are cards of the deck |
| Eight.CountedTotal | stars/eight/cards.go:99-101 | Each copy adds one to the sum of the counts |
| Eight.CountCopies | stars/eight/cards.go:99-101 | The inner loop adds one to the count of each copy, by ID |
| Eight.Count | stars/eight/cards.go:85-105 | Returns `Instances(cards)`, how many cards the deck ends up as. Loop invariants: Sum(count) is the worklist's length, and the cards still to come plus those processed make Instances |
| Eight.InstancesBounds | stars/eight/cards.go:88-93 | Every card is counted at least once, so Count is at least the number of cards; the empty deck counts 0 |
| Eight.FromDocument | stars/eight/cards.go:108-121 | The card of every line, in order |
| Eight.ExampleDeal | stars/eight/cards_test.go:43-50 | The example document gives the cards {1,4}, {2,2}, {3,2}, {4,1}, {5,0} and {6,0} |
| Eight.ExampleInstances | stars/eight/cards_test.go:79-88 | The example's cards end up as 30 cards |
| Eight.DocumentExample | stars/eight/cards_test.go:79-88 | The example document deals a deck that counts to 30 |

## Left out

- The command-line plumbing is not modelled: cobra commands, flags, and the choice between a file and standard input.
- Reading input with `bufio.Scanner` and `io.Reader` is not modelled. A document is given as its sequence of lines, and the `s.Err()` panics of every `FromDocument` are not modelled.
- The RE2 regular expressions (`numRe`, `charRe`, `digitRe`, `colorsRe`, the matchers) are re-expressed as explicit character scanners. Each scanner is proved to find exactly what its pattern matches on the inputs the solvers give it.
- strconv.Atoi works on unbounded integers. Its overflow error is not modelled, so the panics that follow an Atoi error cannot happen in the model.
- Slicing panics are preconditions, because the runtime refuses the slice:
  - Seven.Parse and Eight.Parse with '|' before ':';
  - Eight.Parse on a line with both separators but no digit.
- Eight.FromDocument panics on a line that does not parse. Its precondition is that every line parses.
- `GearRatios` is not modelled. It is used by a test and by the sixth star, but it is not defined in gondola/schematic.go.
- `Cell.DebugString`, `Card.String` and `Cards.String` are not modelled: they only format with printf widths or a tabwriter.
- `util.NewSet`, `Intersection` and `Values` are not part of this model. Util.Intersection models their composition as the strictly increasing list of the common values.
- `util.Pointy` is not modelled. The float instantiations of `util.Sum` are not modelled either.
- `math.Pow(2, float64(m-1))` is modelled as the integer power Pow2, with no floating-point rounding.
- `slices.SortStableFunc` is modelled as insertion sort. For integers, and for spans whose comparison is zero only when they are equal, a stable sort's result is fixed by its input.
- The Go subtraction comparators cannot overflow in the model.
- Jagged grids are not modelled. linkAdjacent bounds-checks against the first row's width only, so a shorter row can be indexed out of range. Gondola.Arena.Compact, LinkAdjacent and FromDocument require a rectangular grid, meaning lines of equal length.
- Gondola.Arena.Compact states nothing about the slots of numeric cells:
  - a multi-column number is its own east and west neighbour;
  - its slots are overwritten column by column.
  - Full symmetry is therefore stated only as seen from rune cells (Gondola.RuneLinksMutual).
- Gondola.Value.String states the number's text through Atoi rather than comparing it with Itoa.
- Gondola.Arena.LineToCells does not model UTF-8 decoding: a line's characters stand for its bytes, and a byte above 127 gets a rune cell of its own holding that byte. Go differs in two ways:
  - `charRe` matches a whole multi-byte rune and stores one cell at its first byte, so the rune's other columns stay nil;
  - `Value.String` writes `string([]rune{r})`, which re-encodes a byte above 127 as two bytes.
  - Gondola.RowRoundTrip and Gondola.RoundTrip therefore require ASCII lines (Gondola.Ascii). In Go the line "é" renders as the bytes C3 83 followed by "."
- stars/four/four.go repeats `gameIDAndColorString`, `colorsRe`, `parseColors` and `maxColors` from stars/three/three.go. They are modelled once, in CubeGames, and used by both stars.
- One.LineValueRange and Two.LineValueRange: "11 to 99" holds only for lines without the digit '0'. A '0' is a digit to both patterns, so "0a5" is worth 5. The model states the range under that condition, and 0..99 in general.
- Examples written through the models of the written forms (CubeGames.GameLine, Seven.CardLine) use single spaces. The tests align numbers with two spaces, and the parsers treat both alike. The first and second stars' examples are the test strings themselves.
- Eight.Count requires a well-formed deck (Eight.Deck):
  - card k carries ID k + 1;
  - its copies stay inside the deck.
  - A deck that breaks these can make `cards[c.ID : c.ID+m]` or `count[cc.ID-1]` panic, or the loop run forever. Some such decks do neither: two cards with ID 1 and no matches count 2. The model says nothing about any deck outside Eight.Deck.
- The pointers in Count's worklist become card values. Nothing in Count depends on their identity.
