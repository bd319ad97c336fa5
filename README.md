# Roulette betting board — a Dafny model

This project models the state logic of the roulette betting screen of an
Android app. The screen shows a 38-number American roulette table; a click on a
number or on the red/black box places a bet, which is described in
`currentBet`, logged in a five-entry "Recent Bets" list and published to an
MQTT broker. The results broadcast by a wheel arrive through a listener. The
listener records the winning number and colour and judges the current bet with
`checkBetResult`. It also logs "<number> - <color>" in a five-entry "Recent
Results" list.

Modules, one per concept of `MainActivity.kt`:

- `Board`: the 38 board numbers and the red and black sets. `ColorOf` is the
  number→colour mapping of the click handler, with "unknown" as its fallback.
  Lemmas prove that the sets are disjoint and cover the board exactly. They
  also prove that "unknown" never comes from a board number.
- `Text`: the Kotlin string operations the code relies on. These are
  `split(", ")` / `split(": ")` (left-to-right, non-overlapping, empty parts
  kept; `"".split(sep) == [""]`), `last()`, `equals(ignoreCase = true)` and
  `Int.toString()`. The last comes with a decimal reader and a round-trip
  lemma.
- `History`: the add-then-`removeAt(0)` list. `RecentList` is an object, just
  as the `mutableStateListOf` lists are. Its ghost `log` holds every entry ever
  added, and its invariant says that the shown `entries` are the last
  min(k, 5) entries of that log, in order.
- `Matcher`: the bet descriptions the handlers build and `checkBetResult`.
  Lemmas show that the colour read back from every description a handler
  writes is the colour the handler put in it, including `""` for the empty
  initial bet.
- `Roulette`: the class `RouletteBoard` with the screen's state. It has one
  method per click handler and one for the result listener. `publishBet` is an
  event appended to `outbox`. A decoded result is the pair of arguments of
  `OnResultReceived`. The click counters are Kotlin `Int`s, so they wrap
  around past 2^31 − 1.

There is no separate "no bet" outcome. A result that arrives before any bet
has been placed is still judged: `checkBetResult` is called with the empty
`currentBet`, whose colour reads back as "". The verdict is then the loser
message unless the winning colour is empty too (`Matcher.EmptyBetOutcome`).

`Roulette.SeventeenBlackScenario` and `Roulette.SixBetsScenario` are worked
illustrations only. They replay a bet on 17 judged against a black 17, and six
bets in a row that push the first one out of the bet history. They state
nothing beyond the rows below.

## Model

| member | source | states |
|---|---|---|
| Board.ColorOf | app/src/main/java/com/example/roulette/MainActivity.kt:124-129 | the colour of a bet is always one of "green", "red", "black", "unknown" |
| Board.ColorSetsDisjoint | app/src/main/java/com/example/roulette/MainActivity.kt:104-105 | the red set, the black set and the two zeros share no number |
| Board.BoardIsPartitioned | app/src/main/java/com/example/roulette/MainActivity.kt:103-105 | the zeros, the red set and the black set together are exactly the numbers of the board list |
| Board.ColorSetSizes | app/src/main/java/com/example/roulette/MainActivity.kt:104-105 | there are 2 green, 18 red and 18 black numbers |
| Board.BoardNumbersDistinct | app/src/main/java/com/example/roulette/MainActivity.kt:103 | the board lists 38 numbers, none twice |
| Board.ColorOfBoardNumber | app/src/main/java/com/example/roulette/MainActivity.kt:103-105 | a number gets green, red or black exactly when it is on the board; "unknown" exactly when it is not |
| Board.ColorOfFollowsSets | app/src/main/java/com/example/roulette/MainActivity.kt:124-129 | a number's colour is "green", "red" or "black" exactly when it is in that colour's set |
| Board.DistinctCardinality | app/src/main/java/com/example/roulette/MainActivity.kt:103-105 | a list has as many members as entries exactly when it repeats nothing (used to count the board and the set literals) |
| Board.BoardNumbersHaveNoSeparators | app/src/main/java/com/example/roulette/MainActivity.kt:103 | no board number contains ',' or ':', so it cannot disturb the parsing of a bet description |
| Text.Split | app/src/main/java/com/example/roulette/MainActivity.kt:205 | `split` always returns at least one part |
| Text.JoinSplit | app/src/main/java/com/example/roulette/MainActivity.kt:205 | the parts of a split, joined with the delimiter, give back the original string |
| Text.SplitWithout | app/src/main/java/com/example/roulette/MainActivity.kt:205 | a string without the delimiter's first character splits into itself alone |
| Text.SplitAt | app/src/main/java/com/example/roulette/MainActivity.kt:205 | a string whose head does not contain the delimiter's first character splits at the delimiter that follows it, and the rest splits on its own |
| Text.CharsEqualIgnoringCaseByLowerCase | app/src/main/java/com/example/roulette/MainActivity.kt:207 | two characters are equal ignoring case exactly when their lower-case forms are equal |
| Text.EqualsIgnoreCaseByLowerCase | app/src/main/java/com/example/roulette/MainActivity.kt:207 | two strings are equal ignoring case exactly when they have the same length and agree character by character once lower-cased; the comparison is reflexive and symmetric |
| Text.NatToString | app/src/main/java/com/example/roulette/MainActivity.kt:78 | the decimal form of a natural number is non-empty, all digits, and has no leading zero |
| Text.IntToString | app/src/main/java/com/example/roulette/MainActivity.kt:78 | `number.toString()` starts with '-' exactly for negative numbers |
| Text.NatToStringValue | app/src/main/java/com/example/roulette/MainActivity.kt:78 | the digits of a natural number have that number as their value |
| Text.IntToStringRoundTrip | app/src/main/java/com/example/roulette/MainActivity.kt:78 | reading back `number.toString()` gives `number` |
| Text.IntToStringInjective | app/src/main/java/com/example/roulette/MainActivity.kt:78 | two different winning numbers never give the same `winningNumber` string |
| History.WindowIsNewestSuffix | app/src/main/java/com/example/roulette/MainActivity.kt:82-85 | the shown history holds min(k, 5) entries, and they are the newest ones of the k added, in order |
| History.WindowStep | app/src/main/java/com/example/roulette/MainActivity.kt:131-134 | `add` followed by `removeAt(0)` when the size exceeds 5 moves the window on by one: the new entry goes last and only the oldest entry is dropped |
| History.RecentList.constructor | app/src/main/java/com/example/roulette/MainActivity.kt:72-73 | a history starts empty |
| History.RecentList.Add | app/src/main/java/com/example/roulette/MainActivity.kt:82-85 | the same add-then-`removeAt(0)` code appears at lines 82-85, 131-134, 155-158 and 172-175; the entry is appended, the oldest one is dropped when there were already 5, the size stays at most 5, and the shown list stays the window of everything added |
| Matcher.LastPartIsSuffix | app/src/main/java/com/example/roulette/MainActivity.kt:205 | the last part of a split is a tail of the string |
| Matcher.BetColor | app/src/main/java/com/example/roulette/MainActivity.kt:205 | the bet colour taken from `currentBet` is a tail of `currentBet` |
| Matcher.CheckBetResult | app/src/main/java/com/example/roulette/MainActivity.kt:204-212 | the result is the winner message exactly when the extracted bet colour equals the winning colour ignoring case, and the loser message otherwise; both embed the winning colour |
| Matcher.CheckIgnoresWinningNumber | app/src/main/java/com/example/roulette/MainActivity.kt:204-211 | the winning number has no influence on the verdict |
| Matcher.ColorBetColor | app/src/main/java/com/example/roulette/MainActivity.kt:154 | the colour read back from "Color: <name>" is `name` when `name` contains no ',' and no ':' |
| Matcher.NumberBetColor | app/src/main/java/com/example/roulette/MainActivity.kt:130 | the colour read back from "Number: <n>, Color: <c>" is `c` when neither contains a separator |
| Matcher.ColorNamesHaveNoSeparators | app/src/main/java/com/example/roulette/MainActivity.kt:124-129 | no colour name contains ',' or ':' |
| Matcher.HandlerBetsReadBack | app/src/main/java/com/example/roulette/MainActivity.kt:205 | the colour read back from a number bet is `color(n)`, from the colour bets "Red" and "Black", and from the initial empty bet "" |
| Matcher.BoardBetsReadBack | app/src/main/java/com/example/roulette/MainActivity.kt:103 | for every number on the board, the colour read back from its bet description is its board colour |
| Matcher.NumberBetOutcome | app/src/main/java/com/example/roulette/MainActivity.kt:130 | a number bet wins exactly when the number's colour equals the winning colour ignoring case |
| Matcher.ColorBetOutcome | app/src/main/java/com/example/roulette/MainActivity.kt:171 | a colour bet wins exactly when "Red"/"Black" equals the winning colour ignoring case |
| Matcher.EmptyBetOutcome | app/src/main/java/com/example/roulette/MainActivity.kt:80 | with no bet placed, the verdict is the winner message only when the winning colour is empty |
| Roulette.Increment | app/src/main/java/com/example/roulette/MainActivity.kt:123 | adding one to a click counter is `+ 1` on a 32-bit `Int`, congruent to x + 1 modulo 2^32 and exactly x + 1 below the maximum |
| Roulette.RouletteBoard.constructor | app/src/main/java/com/example/roulette/MainActivity.kt:67-73 | the screen starts with no clicks, empty strings, empty histories and nothing published |
| Roulette.RouletteBoard.PlaceNumberBet | app/src/main/java/com/example/roulette/MainActivity.kt:122-135 | the clicked number's counter goes up by one (from 0 if absent) and no other counter changes; `currentBet` becomes "Number: n, Color: color(n)" and is logged; exactly (n, color(n)) is published; the result fields and the result history are untouched |
| Roulette.RouletteBoard.PlaceRedBet | app/src/main/java/com/example/roulette/MainActivity.kt:153-159 | `currentBet` becomes "Color: Red" and is logged; exactly ("", "red") is published; the counters, result fields and result history are untouched |
| Roulette.RouletteBoard.PlaceBlackBet | app/src/main/java/com/example/roulette/MainActivity.kt:170-176 | `currentBet` becomes "Color: Black" and is logged; exactly ("", "black") is published; the counters, result fields and result history are untouched |
| Roulette.RouletteBoard.OnResultReceived | app/src/main/java/com/example/roulette/MainActivity.kt:77-85 | `winningNumber` is the decimal string of the number (it reads back as the number) and `winningColor` the colour; `betResult` is `checkBetResult` of the current bet, even an empty one; "<n> - <c>" is logged; the bet, the bet history, the counters and the outbox are untouched |

## Left out

- `MqttHelper.kt` is not part of this model. It covers the broker connection,
  TLS, credentials, the subscription to "result/data", the listener fields and
  the JSON encoding and decoding through `org.json`. All of these are network
  code or foreign library calls. `publishBet(number, color)` becomes a
  `BetEvent` appended to `outbox`. A decoded result becomes the arguments
  `(number, color)` of `OnResultReceived`.
- The Compose layout is not modelled: columns, rows, the `chunked(3)` grid,
  the box backgrounds (their `Color.Gray` fallback included), fonts and the
  `Text` elements. It only displays the state.
- The Android lifecycle is not modelled: `onCreate`, `setContent`, `remember`,
  `LaunchedEffect` and the recomposition of `mutableStateOf`. The listener is
  modelled as a method called from the same sequential context as the click
  handlers. The thread on which the MQTT client delivers it is not modelled.
- The `Log.d` call is not modelled. It is a logging side effect only.
- Text.EqualsIgnoreCase: case folding covers the ASCII letters only.
  Kotlin's `equals(ignoreCase = true)` also folds non-ASCII letters through
  Unicode case mapping.
- Text.Split: models `split` with one non-empty delimiter, no limit and
  `ignoreCase = false`, which is the only form the code uses.
