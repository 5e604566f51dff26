# Summer-school exercise helpers, modelled in Dafny

This project models the algorithmic helpers of a Python summer-school repository and
proves what each one computes. The helpers are:

- **Dijkstra's algorithm** over the complete graph of a path's waypoints
  (`dijkstra`, `euclidean_distance`);
- **breadth-first route search** through a metro map (`find_path`);
- **binary and hexadecimal encoders** of integers (`to_binary`, `to_hexadecimal`);
- **factorial**, **kinetic energy** and the **FizzBuzz** list and its output line;
- **a variadic calculator** (sum or product, optional rounding) and its stdin parser,
  which reads the arguments from the first line and `key=value` keywords from the rest;
- **two small stateful classes**:
  - a list-like `CustomizedList`, with Python indexing, item assignment, deletion and
    append;
  - a `PizzaShop`, with an order and a total at the branch's tariff;
- **the text parsers** of the matrix/plotter web application (`parse_matrix_string`,
  `parse_plot_data`);
- **unit conversion** by factor tables, and the temperature formulas.

The project has one Dafny module per source file.

Stateful code is modelled as imperative Dafny, so a loop becomes a `method` with
invariants:
- `CustomizedList` and `PizzaShop` are classes whose methods update their fields;
- the Dijkstra, BFS, encoder, factorial, calculator and plot-data loops are methods
  proved against specification functions.

Expression-only code becomes functions and lemmas.

Shared helpers:
- `Wrappers` holds `Option` and `Result`;
- `Text` models Python's `str.strip`, `str.split()`, `str.split(sep)`, `sep.join` and
  `str.split('=', 1)`;
- `Numerals` holds digit strings in bases 2, 10 and 16 and their values.

Python floats are modelled as Dafny `real`, with exact arithmetic. `float(token)`,
`round(x, d)` and the edge weight are parameters of the model.

## Model

| member | source | states |
|---|---|---|
| ShortestPath.Dijkstra | ex3/sol3.py:40-79 | The call fails exactly when the start or end index is outside `0..n-1`. It fails with IndexError when it would index `nodes` with a start past the array (start ≠ end), and with KeyError otherwise. With both indices in range it returns a walk from start to end that is no heavier than any walk between them, with no repeated node. When start = end it returns `[start]`. |
| ShortestPath.OutOfRange | ex3/sol3.py:43-45 | No failure iff both indices are in range. IndexError iff `n > 0`, start ≠ end and start is past either end of `nodes`. |
| ShortestPath.EuclideanWeight | ex3/sol3.py:36-38 | A weight whose square is the squared coordinate distance and which is non-negative is non-negative, symmetric, and zero from a point to itself. |
| ShortestPath.SquareRootUnique | ex3/sol3.py:38 | Two non-negative reals with equal squares are equal (the square root is determined). |
| ShortestPath.MinIndex | ex3/sol3.py:51 | The popped entry is the least `(distance, node)` pair in tuple order, as `heapq.heappop` returns. |
| ShortestPath.Remove | ex3/sol3.py:51 | Popping one entry shortens the heap by one, keeps every other entry and adds none. |
| ShortestPath.RelaxChanges | ex3/sol3.py:60-70 | One relaxation never raises a distance and changes only the neighbour. It changes it iff the neighbour is not the current node and the new distance is strictly smaller. A changed node gets distance `d[u] + w(u, v)` and predecessor `u`, and its entry is pushed. Otherwise nothing changes. |
| ShortestPath.Relax | ex3/sol3.py:61-70 | One relaxation keeps the tables sized to the nodes and leaves the current node's own distance unchanged. |
| ShortestPath.RelaxUpTo | ex3/sol3.py:60-70 | Relaxing the first `k` neighbours keeps the tables sized and the current node's distance unchanged. |
| ShortestPath.RelaxNeighbors | ex3/sol3.py:60-70 | The relaxation loop over all nodes computes exactly the fold of single relaxations over `0..n-1`. |
| ShortestPath.InitInv | ex3/sol3.py:42-48 | The initial tables (start at 0, every other node at infinity, no predecessors, heap `[(0, start)]`) satisfy the search invariant. |
| ShortestPath.StaleStep | ex3/sol3.py:53-54 | Discarding a popped entry whose distance exceeds the node's best keeps the invariant without relaxing anything. |
| ShortestPath.SettleStep | ex3/sol3.py:51-57 | Popping a least, current, non-end entry settles its node, and the invariant of a relaxation round holds. |
| ShortestPath.RelaxStep | ex3/sol3.py:60-70 | One relaxation preserves the invariants: predecessor links match the recorded distances, every settled edge is relaxed, and the heap is consistent. |
| ShortestPath.RelaxAll | ex3/sol3.py:60-70 | The relaxation round preserves its invariant for every prefix of the nodes. |
| ShortestPath.RelaxDone | ex3/sol3.py:60-70 | After a full round the current node is settled and the search invariant holds again. |
| ShortestPath.HeapNotEmpty | ex3/sol3.py:50 | While the end node is unsettled the heap is not empty, so the loop cannot run out before reaching the end. |
| ShortestPath.LowerBound | ex3/sol3.py:50-70 | Every walk from the start whose nodes are all settled weighs at least its last node's distance. Any other walk weighs at least the heap minimum. |
| ShortestPath.Reached | ex3/sol3.py:56-57 | When the end is popped at its current distance, every walk from start to end weighs at least that distance. |
| ShortestPath.FewerUnsettled | ex3/sol3.py:50-70 | Settling a node strictly reduces the number of unsettled nodes (the loop's termination measure). |
| ShortestPath.SearchRound | ex3/sol3.py:50-70 | One iteration either stops with the end settled at its minimal distance, or keeps the invariant while strictly decreasing the termination measure. |
| ShortestPath.PathWeightCons | ex3/sol3.py:64-65 | Prepending a node adds the weight of its edge to the walk's weight. |
| ShortestPath.PathWeightGrows | ex3/sol3.py:64-65 | With non-negative weights a prefix of a walk weighs no more than the walk. |
| ShortestPath.Reverse | ex3/sol3.py:79 | The reversed path has the same length, with element `i` taken from position `len-1-i`. |
| ShortestPath.TraceStep | ex3/sol3.py:75-77 | Following one predecessor link keeps the trace strictly descending in settling order, so it cannot repeat a node. |
| ShortestPath.DescendingDistinct | ex3/sol3.py:75-79 | A trace that is strictly descending in settling order has no repeated node once reversed. |
| ShortestPath.TraceEnd | ex3/sol3.py:73-79 | When the chain reaches a node with no predecessor, the reversed trace starts at start, ends at end, has no repeats and weighs exactly the end's distance. |
| ShortestPath.TracePath | ex3/sol3.py:72-79 | The trace loop terminates with a path from start to end, with no repeated node and total weight equal to the end's distance. |
| ShortestPath.Conclude | ex3/sol3.py:40-41 | The traced path is a shortest walk. When start = end it is `[start]`. |
| MetroPath.FindPath | ex1/e5/sol.py:4-28 | None iff start or end is not a station of the graph, or end is unreachable from start. Otherwise a walk from start to end along listed neighbours with the fewest stations among all such walks, and no station twice. |
| MetroPath.EnqueueNeighbors | ex1/e5/sol.py:21-26 | The neighbour loop equals the fold that appends each unvisited neighbour's extended path to the queue and marks it visited. |
| MetroPath.Expand | ex1/e5/sol.py:21-26 | The neighbour loop only appends to the queue and only adds to the visited set. |
| MetroPath.SearchStart | ex1/e5/sol.py:10-12 | The initial queue `[[start]]` and visited set `{start}` satisfy the BFS invariant. |
| MetroPath.PopStep | ex1/e5/sol.py:15-16 | Popping the queue head keeps paths non-decreasing in length and passes to the invariant of the neighbour loop. |
| MetroPath.PushStep | ex1/e5/sol.py:22-26 | Marking a new neighbour visited and queueing its extended path keeps every visited station's path a shortest walk. |
| MetroPath.ExpandKeepsInv | ex1/e5/sol.py:21-26 | The whole neighbour loop preserves the neighbour-loop invariant. |
| MetroPath.ExpandReaches | ex1/e5/sol.py:21-26 | After the neighbour loop every listed neighbour is visited and no other station is newly visited; either nothing changed or some neighbour was newly visited. |
| MetroPath.SearchStep | ex1/e5/sol.py:14-26 | One outer iteration on a head that is not the end keeps the BFS invariant. |
| MetroPath.SearchProgress | ex1/e5/sol.py:14-26 | Each iteration either visits a new station or shortens the queue (termination). |
| MetroPath.Found | ex1/e5/sol.py:18-19 | A dequeued path ending at end is a shortest walk with no repeated station. |
| MetroPath.Exhausted | ex1/e5/sol.py:28 | An empty queue without having met the end means the end is unreachable. |
| MetroPath.ClosedWalk | ex1/e5/sol.py:21-28 | A walk from the start never leaves a set of stations closed under neighbours. |
| MetroPath.WalkPrefix | ex1/e5/sol.py:24-25 | A prefix of a walk is a walk with the same first station. |
| MetroPath.NeighborInStations | ex1/e5/sol.py:21 | Every listed neighbour is a station of the map. |
| MetroPath.RouteTajrishMirdamad | ex1/e5/sol.py:33-39 | On the metro map the only walk of at most three stations from Tajrish to Mirdamad goes through Gheytariyeh. |
| MetroPath.RouteSadeghiyehMirdamad | ex1/e5/sol.py:33-39 | The only walk of at most three stations from Sadeghiyeh to Mirdamad goes through Teatr. |
| MetroPath.RouteGheytariyehSadeghiyeh | ex1/e5/sol.py:33-39 | The only repetition-free walk of at most four stations from Gheytariyeh to Sadeghiyeh is Gheytariyeh, Mirdamad, Teatr, Sadeghiyeh. |
| MetroPath.RouteSadeghiyehTajrish | ex1/e5/sol.py:33-39 | The only repetition-free walk of at most five stations from Sadeghiyeh to Tajrish is Sadeghiyeh, Teatr, Mirdamad, Gheytariyeh, Tajrish. |
| MetroPath.TajrishToMirdamad | e5/tcase.py:8 | The search returns Tajrish, Gheytariyeh, Mirdamad. |
| MetroPath.GheytariyehToSadeghiyeh | e5/tcase.py:11 | The search returns Gheytariyeh, Mirdamad, Teatr, Sadeghiyeh. |
| MetroPath.TajrishToAzadi | e5/tcase.py:14 | An unknown station gives no path. |
| MetroPath.SadeghiyehToTajrish | e5/tcase.py:17 | The search returns Sadeghiyeh, Teatr, Mirdamad, Gheytariyeh, Tajrish. |
| MetroPath.TeatrToTeatr | e5/tcase.py:20 | Equal start and end give the one-station path. |
| MetroPath.SadeghiyehToMirdamad | e5/tcase.py:23 | The search returns Sadeghiyeh, Teatr, Mirdamad. |
| BaseConversion.ToBinary | ex1/e3/sol.py:1-10 | The string uses only `0`/`1`. It is `"0"` for 0, empty for a negative input, and otherwise has no leading zero and reads back in base 2 as the input. |
| BaseConversion.ToHexadecimal | ex1/e3/sol.py:12-23 | The string uses only `0123456789ABCDEF`. It is `"0"` for 0, empty for a negative input, and otherwise has no leading zero and reads back in base 16 as the input. |
| BaseConversion.Numeral | ex1/e3/sol.py:3-10 | The numeral is empty exactly for a negative `n`, since the loop never runs, and it is `"0"` for zero. |
| BaseConversion.NumeralEncodes | ex1/e3/sol.py:3-10 | The numeral of `n` is the `"0"`/empty/canonical encoding described above. |
| BaseConversion.EncodesUnique | ex1/e3/sol.py:3-10 | That encoding determines the string uniquely. |
| BaseConversion.KnownBinaryTen | e3/testcase.py:7-8 | 0 → "0", 10 → "1010". |
| BaseConversion.KnownBinaryTwentySix | e3/testcase.py:9 | 26 → "11010". |
| BaseConversion.KnownBinaryByte | e3/testcase.py:10 | 255 → "11111111". |
| BaseConversion.KnownBinaryLong | e3/testcase.py:11 | 482 → "111100010". |
| BaseConversion.KnownBinaryMillion | e3/testcase.py:12 | 1000000 → "11110100001001000000". |
| BaseConversion.MillionBinaryPrefix | e3/testcase.py:12 | The first ten binary digits of the expected output read back as 976. |
| BaseConversion.MillionBinaryValue | e3/testcase.py:12 | The expected binary output reads back as 1000000. |
| BaseConversion.KnownHexadecimal | e3/testcase.py:7-11 | 0 → "0", 10 → "A", 26 → "1A", 255 → "FF", 482 → "1E2". |
| BaseConversion.KnownHexadecimalLong | e3/testcase.py:12 | 1000000 → "F4240". |
| Numerals.DigitsAccIsDigits | ex1/e3/sol.py:7-9 | Prepending `n % b` to the accumulator and continuing with `n // b` yields the digits of the original number. |
| Numerals.DigitsCanonical | ex1/e3/sol.py:7-10 | The digit string of a positive number has no leading zero. |
| Numerals.ValueOfDigits | ex1/e3/sol.py:7-9 | Reading the digit string back gives the number. |
| Numerals.DigitsOfValue | ex1/e3/sol.py:7-9 | A canonical digit string is the digit string of its value. |
| Numerals.CanonicalPositive | ex1/e3/sol.py:7-10 | A non-empty canonical digit string has a positive value. |
| Numerals.DigitValueOfDigitChar | ex1/e3/sol.py:8-21 | The digit character of `d` reads back as `d`. |
| Factorial.Factorial | e1/sol.py:3-11 | The loop computes `n!`, which is 1 for 0 and for every negative input. |
| Factorial.Fact | e1/sol.py:8-11 | The factorial is at least 1 for every input. |
| Factorial.FactDivisible | e1/sol.py:9-10 | Every `k` in `1..n` divides `n!`. |
| Factorial.FactMonotone | e1/sol.py:9-10 | The factorial does not decrease on the naturals. |
| Factorial.KnownFactorials | e1/tcase.py:5-10 | 0! = 1, 1! = 1, 5! = 120, 10! = 3628800, 13! = 6227020800, 20! = 2432902008176640000. |
| KineticEnergy.KineticEnergy | e2/sol.py:3-5 | Zero velocity gives zero energy, and a non-negative mass gives a non-negative energy. |
| KineticEnergy.KineticEnergyEven | e2/sol.py:5 | Negating the velocity leaves the energy unchanged. |
| KineticEnergy.KineticEnergyAdditive | e2/sol.py:5 | The energy is additive in the mass. |
| FizzBuzz.FizzBuzzList | e4/sol.py:9-15 | The list has `max(n, 0)` entries. |
| FizzBuzz.FizzBuzzListAt | e4/sol.py:9-15 | Entry `k` of the list is the word for `k + 1`, in order. |
| FizzBuzz.EntryCases | e4/sol.py:10-13 | "FizzBuzz" for multiples of 15, "Fizz" for other multiples of 3, "Buzz" for multiples of 5 that are not multiples of 3, and otherwise the decimal numeral that reads back as `i`. |
| FizzBuzz.EntryIsFizzThenBuzz | e4/sol.py:10-13 | The word is "Fizz" if divisible by 3 followed by "Buzz" if divisible by 5, or the numeral when that is empty. |
| FizzBuzz.Entry | e4/sol.py:10-13 | The word is non-empty, and it is one of "FizzBuzz", "Fizz", "Buzz" exactly when `i` is divisible by 3 or by 5. |
| FizzBuzz.DecimalNotWord | e4/sol.py:13 | `str(i)` is non-empty and none of the three words, since it starts with a digit. |
| FizzBuzz.MultipleOfFifteen | e4/sol.py:10 | A multiple of 15 is a multiple of 3 and of 5. |
| FizzBuzz.MultipleOfBoth | e4/sol.py:10 | A multiple of 3 and of 5 is a multiple of 15. |
| FizzBuzz.DecimalValue | e4/sol.py:13 | `str(i)` is a canonical decimal numeral of `i`. |
| FizzBuzz.EntryIsWord | e4/sol.py:10-13 | Every entry is a non-empty word without whitespace. |
| FizzBuzz.EntriesAreWords | e4/sol.py:9-15 | Every list entry is such a word. |
| FizzBuzz.Output | e4/sol.py:18 | The printed line is empty for `n <= 0`, and splitting it on whitespace gives back the list, so the space join loses nothing. |
| FizzBuzz.KnownEntries | e4/sol.py:10-13 | The words for 1..5 are "1", "2", "Fizz", "4", "Buzz". |
| FizzBuzz.KnownLists | e4/sol.py:9-15 | The lists for 0, -3, 1, 2, 3 and 5. |
| FizzBuzz.KnownShortOutputs | e4/tcase.py:8-11 | The lines for 0, -3, 1, 2 and 3 ("", "", "1", "1 2", "1 2 Fizz"). |
| FizzBuzz.KnownOutputFive | e4/tcase.py:9 | The line for 5 is "1 2 Fizz 4 Buzz". |
| Calculator.UniversalCalculator | ex1/e6/sol.py:5-24 | Product of the arguments when `operation` is `multiply`, otherwise their sum. Rounded to `round_to` digits when that keyword is present and parses as an integer, otherwise unrounded. |
| Calculator.SumAppend | ex1/e6/sol.py:15 | The sum of a concatenation is the sum of the sums (0 for no arguments). |
| Calculator.ProductAppend | ex1/e6/sol.py:11-13 | The product of a concatenation is the product of the products (1 for no arguments). |
| Calculator.ProductZero | ex1/e6/sol.py:11-13 | The product is 0 iff some argument is 0. |
| Calculator.SumSwap | ex1/e6/sol.py:15 | Swapping adjacent arguments leaves the sum unchanged. |
| Calculator.ProductSwap | ex1/e6/sol.py:11-13 | Swapping adjacent arguments leaves the product unchanged. |
| Calculator.PairProduct | ex1/e6/sol.py:11-13 | The product of two arguments is their product. |
| Calculator.ParseInt | ex1/e6/sol.py:19 | `int(text)` succeeds only on non-blank text; a stripped optionally signed decimal numeral gives its value, and a leading `-` negates it. |
| Calculator.IntToString | ex1/e6/sol.py:19 | `str(n)` is a decimal numeral, preceded by `-` exactly when `n` is negative. |
| Calculator.ParseIntOfIntToString | ex1/e6/sol.py:19 | `int(str(n)) == n` for every integer. |
| Calculator.NumeralIsDecimal | ex1/e6/sol.py:19 | The decimal numeral of a natural is all digits and reads back as it. |
| Calculator.KnownParseIntAccepted | ex1/e6/sol.py:19 | `int("2") == 2` and `int("+07") == 7`. |
| Calculator.KnownParseIntPadded | ex1/e6/sol.py:19 | `int(" -3 ") == -3`: surrounding whitespace is allowed. |
| Calculator.KnownParseIntRejected | ex1/e6/sol.py:19-22 | `""`, `"2.5"` and `"-"` raise ValueError, so rounding is skipped. |
| Calculator.ParseArgs | ex1/e6/sol.py:37-43 | No lines give no arguments. If every token of the stripped first line parses as a float, the arguments are those values in order; otherwise there are none. |
| Calculator.KeyValues | ex1/e6/sol.py:46-49 | One entry per input line: the key/value split at the first `=` of the stripped line, or nothing. |
| Calculator.ReadStep | ex1/e6/sol.py:46-50 | Reading one more line keeps the dictionary equal to the last assignment of each key so far. |
| Calculator.ParseKwargs | ex1/e6/sol.py:45-50 | A key is present iff some stripped line after the first contains `=` with that key before its first `=`. Its value comes from the last such line. |
| Text.StripStartSuffix | ex1/e6/sol.py:38 | Stripping leading whitespace keeps a suffix whose first character is not whitespace, and drops only whitespace. |
| Text.StripEndPrefix | ex1/e6/sol.py:38 | Stripping trailing whitespace keeps a prefix whose last character is not whitespace, and drops only whitespace. |
| Text.StripStart | ex1/e6/sol.py:38 | `lstrip()` never lengthens the string. |
| Text.StripEnd | ex1/e6/sol.py:38 | `rstrip()` never lengthens the string. |
| Text.StripSlice | projects/p2/app.py:17-18 | `strip` returns a slice of the input with only whitespace removed on either side. |
| Text.Strip | projects/p2/app.py:17-18 | `strip()`: the result is empty or starts and ends with a non-whitespace character. |
| Text.StripUnpadded | projects/p2/app.py:18 | Stripping a string without surrounding whitespace returns it unchanged. |
| Text.WordLength | projects/p2/app.py:18 | The first word ends at the first whitespace character or at the end of the string. |
| Text.Words | projects/p2/app.py:18 | `split()` yields non-empty words without whitespace. |
| Text.WordsOfJoin | e4/sol.py:18 | Splitting the space join of words on whitespace gives the words back. |
| Text.Join | e4/sol.py:18 | Joining a single part returns that part unchanged. |
| Text.Split | projects/p2/app.py:17 | `split(sep)` yields at least one part, no part contains the separator, and joining the parts with it gives the input. |
| Text.SplitOfJoin | projects/p2/app.py:17 | Splitting the join of separator-free parts gives the parts back. |
| Text.SplitUnique | projects/p2/app.py:17 | The parts are the only separator-free parts whose join is the input. |
| Text.IndexOf | ex1/e6/sol.py:49 | The first position of the character. |
| Text.SplitFirst | ex1/e6/sol.py:48-49 | `split('=', 1)` fails iff there is no `=`. |
| Text.SplitFirstParts | ex1/e6/sol.py:49 | The line is key + `=` + value, with no `=` in the key. |
| Text.SplitFirstUnique | ex1/e6/sol.py:49 | That decomposition is unique. |
| Text.ParseAll | ex1/e6/sol.py:41 | A list comprehension of partial parses succeeds iff every token parses, and then gives the parsed values in order. |
| CustomizedLists.Resolve | ex2/sol2.py:37-45 | An index is valid iff it lies in `-len .. len-1`, and it then names position `i` or `i + len`. |
| CustomizedLists.CustomizedList.constructor | ex2/sol2.py:8-12 | A new list records its file path and starts empty. |
| CustomizedLists.CustomizedList.Length | ex2/sol2.py:34-35 | `len()` is the number of stored items. |
| CustomizedLists.CustomizedList.Get | ex2/sol2.py:37-39 | The stored item at the index, counting from the end when negative. IndexError iff the index is out of range. |
| CustomizedLists.CustomizedList.Set | ex2/sol2.py:41-42 | In range: only the named element is replaced. Out of range: IndexError and the list is unchanged. |
| CustomizedLists.CustomizedList.Delete | ex2/sol2.py:44-45 | In range: the named element is removed. Out of range: IndexError and the list is unchanged. |
| CustomizedLists.CustomizedList.Append | ex2/sol2.py:55-56 | The item goes last and earlier items stay. |
| CustomizedLists.ReplaceOnlyAt | ex2/sol2.py:41-42 | Assignment keeps the length and changes only the given position. |
| CustomizedLists.RemoveShifts | ex2/sol2.py:44-45 | Deletion shortens the list by one and shifts later items down. |
| CustomizedLists.RemoveAfterReplace | ex2/sol2.py:41-45 | Deleting a just-assigned position is the same as deleting the original item. |
| CustomizedLists.Demonstration | ex2/sol2.py:62-76 | After appending 10, "hello" and a dictionary, then assigning "world" at 1 and deleting 0, the list is `["world", dict]`, with length 2 and first item "world". |
| PizzaShops.PizzaShop.constructor | ex2/sol1.py:9-11 | A shop starts with its name, an empty order and no tariff. |
| PizzaShops.PizzaShop.Tehran | ex2/sol1.py:39-44 | The Tehran branch has tariff 1.10 and an empty order. |
| PizzaShops.PizzaShop.Shiraz | ex2/sol1.py:46-50 | The Shiraz branch has tariff 0.95 and an empty order. |
| PizzaShops.PizzaShop.AddToOrder | ex2/sol1.py:13-19 | The pizza is appended iff it is on the menu; otherwise the order is unchanged. |
| PizzaShops.PizzaShop.CalculateTotal | ex2/sol1.py:21-35 | The total is the sum of menu prices times the tariff, and the order is cleared. A shop without a tariff fails and keeps its order. |
| PizzaShops.BasePriceAppend | ex2/sol1.py:23 | The base price of a concatenated order is the sum of the base prices (0 for none). |
| PizzaShops.BasePrice | ex2/sol1.py:23 | The sum of menu prices of an order of menu pizzas is never negative. |
| PizzaShops.BasePriceBounds | ex2/sol1.py:7-23 | An order of `k` pizzas costs between 95k and 150k before the tariff. |
| PizzaShops.Demonstration | ex2/sol1.py:53-65 | Pepperoni and margherita in Tehran total 297.0; pepperoni and vegetable in Shiraz total 232.75. |
| TextParsers.Lines | projects/p2/app.py:17 | Splitting the stripped text on newlines gives at least one row. |
| TextParsers.Tokens | projects/p2/app.py:18 | `row.strip().split()` yields only non-empty words without whitespace. |
| TextParsers.ParseRow | projects/p2/app.py:18 | `list(map(float, …))` succeeds iff every token parses, and then has one number per token. |
| TextParsers.ParseRows | projects/p2/app.py:18 | All rows parse iff every token of every row parses as a float. The result then has one row of values per line, in order. |
| TextParsers.ParseMatrixString | projects/p2/app.py:14-27 | A returned matrix is square, has one row per line, and holds each line's numbers in order. Every error is one of the two messages. |
| TextParsers.MatrixOutcome | projects/p2/app.py:17-25 | The invalid-input message iff some token fails or the rows differ in length. The square-matrix message iff all parse and are even but the row length differs from the row count. A matrix iff the rows parse and form a square. |
| TextParsers.MatrixRoundTrip | projects/p2/app.py:14-23 | Formatting a square grid of parsable words as lines of space-separated tokens and parsing it gives back each cell's value. |
| TextParsers.FormattedLines | projects/p2/app.py:17-18 | Joining rows of words with spaces and newlines gives back one line per row, with that row's tokens. |
| TextParsers.FormattedRow | projects/p2/app.py:18 | A space-joined row of words has no newline and no padding, and splits back into the row. |
| TextParsers.BlankMatrix | projects/p2/app.py:17-22 | Blank input gives one empty row, which is not square. |
| TextParsers.BlankStrips | projects/p2/app.py:17 | Blank input strips to the empty string. |
| TextParsers.JoinLacks | projects/p2/app.py:17 | A join of parts without a character, by a separator without it, lacks the character. |
| TextParsers.JoinEnds | projects/p2/app.py:17 | A join starts with its first part and ends with its last part. |
| TextParsers.JoinUnpadded | projects/p2/app.py:17 | A join of parts that are unpadded at the outer ends is itself unpadded. |
| TextParsers.WordLacksNewline | projects/p2/app.py:18 | A word contains no newline. |
| TextParsers.ParsePlotData | projects/p2/app.py:29-43 | The error message iff some token of some line fails to parse. Otherwise x and y have equal length and hold, in input order, the two values of exactly the rows with two numbers. |
| TextParsers.Points | projects/p2/app.py:36-38 | No more points than rows. |
| TextParsers.PointsAppend | projects/p2/app.py:34-38 | The points of concatenated rows are the concatenated points, so input order is kept. |
| TextParsers.PointsFromPairs | projects/p2/app.py:36-38 | A pair is plotted iff some row is exactly that pair of numbers. |
| TextParsers.PointsOfPairs | projects/p2/app.py:36-38 | When every row has two numbers, every row is plotted, in order. |
| TextParsers.ParseRowsSnoc | projects/p2/app.py:34-35 | Parsing one more line extends the parsed rows, or fails if that line fails. |
| TextParsers.ColumnsSnoc | projects/p2/app.py:36-38 | A two-number row extends both columns; any other row leaves them unchanged. |
| TextParsers.BlankPlotData | projects/p2/app.py:33-39 | Blank input parses without error to no points. |
| UnitConversion.ConvertByFactor | ex3/sol1.py:33-37 | Defined iff both units are in the table and the source factor is non-zero. The result times the source factor equals the value times the target factor. |
| UnitConversion.TablesHavePositiveFactors | ex3/sol1.py:11-17 | The length and mass tables have exactly their listed units, positive factors, and base units m and kg at 1.0. |
| UnitConversion.ConvertSameUnit | ex3/sol1.py:33-37 | Converting a unit to itself returns the value. |
| UnitConversion.ConvertRoundTrip | ex3/sol1.py:33-37 | Converting a to b and back returns the value. |
| UnitConversion.ConvertCompose | ex3/sol1.py:33-37 | Converting a to b and then b to c is converting a to c. |
| UnitConversion.ConvertFromBaseUnit | ex3/sol1.py:11-36 | Converting from a unit with factor 1.0 multiplies by the target factor. |
| UnitConversion.ZeroFactor | ex3/sol1.py:35 | A product with a non-zero factor is zero only when the other factor is. |
| UnitConversion.KnownConversions | ex3/sol1.py:11-86 | 1 km = 1000 m, 2 m = 6.56168 ft, 1 kg = 2.20462 lb. An unknown unit is rejected. |
| UnitConversion.TemperatureRoundTrip | ex3/sol1.py:26-27 | Fahrenheit-to-Celsius undoes Celsius-to-Fahrenheit, and conversely. |
| UnitConversion.CToF | ex3/sol1.py:26 | The Fahrenheit value `f` satisfies `(f - 32) * 5 = c * 9`. |
| UnitConversion.FToC | ex3/sol1.py:27 | The Celsius value `c` satisfies `c * 9 = (f - 32) * 5`. |
| UnitConversion.TemperatureMonotone | ex3/sol1.py:26-27 | Both formulas are strictly increasing. |
| UnitConversion.KnownTemperatures | ex3/sol1.py:26-27 | 0 °C = 32 °F, 100 °C = 212 °F, -40 °C = -40 °F, and the inverse values. |

## Left out

- Input, output and process control are not modelled:
  - every `print`, `input`, `sys.exit` and `sys.stdin` read;
  - the `__main__` scripts, including `int(input())` in front of the factorial, FizzBuzz and encoders;
  - the `" -> "` join or "No path found!" of the metro script.
- The test-case generator scripts only write files. Their expected values appear as concrete lemmas: the e4 outputs for 1, 2, 3 and 5, and the metro and encoder cases. For the FizzBuzz lines of 15 and 20, only the general lemmas apply.
- ShortestPath.Dijkstra: an out-of-range index raises Python's IndexError or KeyError, as OutOfRange classifies. There is no separate `start == end` branch, because the loop stops at the first pop.
- ShortestPath.Dijkstra: a negative start in `-n..-1` makes Python run a search from a duplicated key. The result of that run is only classified (KeyError, raised at the end of the trace); the run itself is not simulated.
- ShortestPath.Dijkstra: of several equally short walks, the contract does not pin down which one is returned. Tie-breaking follows the tuple order of the heap, which the model keeps but does not state in the postcondition.
- MetroPath.FindPath: of several equally short walks, the contract does not state which one is returned. The FIFO queue and the order of the adjacency lists decide; the concrete route lemmas avoid the question because the metro map is a tree.
- ShortestPath: `heapq`'s binary heap is a sequence with tuple-order extract-min.
- ShortestPath: `np.sqrt` is not modelled. The weight is a parameter required only to be non-negative, and `IsEuclidean` characterises the Euclidean distance by its square.
- `reconstruct_path` is not part of this model. It is SciPy cubic interpolation with extrapolation.
- The plotting and animation code, the tkinter quadratic solver, the Flask routes with `np.linalg.det`, Matplotlib and base64, and the other projects' visualisation and OpenCV code are not part of this model. All are foreign libraries or GUIs.
- Floating point is exact `real` arithmetic: there is no rounding error in tariffs, conversions, kinetic energy, sums or path weights, and no distinction between `int` and `float` results (such as `1` versus `1.0`). Consequences:
  - `Calculator.UniversalCalculator`: Python's `round` is an arbitrary function parameter;
  - `float(token)` is a partial parse parameter in Calculator and TextParsers.
- Calculator.ParseInt models `int()` on strings as ASCII digits with an optional sign and surrounding whitespace, which is the ten ASCII whitespace characters of Text. It does not model underscores between digits, non-ASCII digits or non-ASCII whitespace, or a `round_to` of a non-string type. Keyword values are always strings in this program.
- Text: whitespace is the ten ASCII characters Python treats as whitespace (tab, newline, vertical tab, form feed, carriage return, the separators 0x1C-0x1F and space). Non-ASCII whitespace such as U+0085 or U+00A0, which `str.split()` and `str.strip()` also remove, is not modelled.
- CustomizedLists: `load` and `dump` (JSON file I/O) are not modelled, so the constructor starts empty as when the file does not exist. Also not modelled: `__str__`/`__repr__` and slice indices.
- CustomizedLists.CustomizedList.Get: non-integer indices (TypeError) are not modelled.
- PizzaShops: printing of per-pizza prices is not modelled, and neither is `title()`.
- PizzaShops.PizzaShop.CalculateTotal: a base-class shop has no tariff; the AttributeError appears as an `Err` result. The model returns the total, which the source only prints.
- TextParsers: ragged matrix rows follow the behaviour of current NumPy versions, where `np.array` raises ValueError. Older versions built an object array.
- TextParsers: the generic `except Exception` branches are not modelled. They are unreachable once `float` is modelled as a partial function.
- TextParsers.ParsePlotData: the result is Dafny sequences rather than NumPy arrays.
- UnitConversion: an unknown unit or a zero factor gives `None`, where the program raises KeyError or ZeroDivisionError. The menu loop that catches them is not modelled.
