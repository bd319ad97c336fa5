/** The state of the roulette betting screen and what its click handlers and
    its result listener do to it. Publishing a bet to the broker is recorded
    as an event appended to `outbox`; a decoded result arrives as the
    arguments of `OnResultReceived`. */
module Roulette {
  import opened Text
  import opened Board
  import opened History
  import opened Matcher

  /** Kotlin's `Int`. */
  newtype Int32 = x: int | -0x8000_0000 <= x < 0x8000_0000

  const IntMax: Int32 := 0x7fff_ffff
  const IntMin: Int32 := -0x8000_0000

  /** `+ 1` on a Kotlin `Int`: two's-complement wrap-around at the top. */
  function Increment(x: Int32): (r: Int32)
    ensures (r as int - x as int - 1) % 0x1_0000_0000 == 0
    ensures x < IntMax ==> r as int == x as int + 1
  {
    if x == IntMax then IntMin else x + 1
  }

  /** One `publishBet(number, color)` call; `number` is "" for a colour bet. */
  datatype BetEvent = BetEvent(number: string, color: string)

  class RouletteBoard {
    /** Clicks per number, only for numbers clicked at least once. */
    var bets: map<string, Int32>
    var winningNumber: string
    var winningColor: string
    var currentBet: string
    var betResult: string
    const resultHistory: RecentList
    const betHistory: RecentList
    /** Every bet published, oldest first. */
    var outbox: seq<BetEvent>

    ghost predicate Valid()
      reads this, resultHistory, betHistory
    {
      resultHistory != betHistory && resultHistory.Valid() && betHistory.Valid()
    }

    /** The state as the screen starts: everything empty. */
    constructor ()
      ensures Valid() && fresh(resultHistory) && fresh(betHistory)
      ensures bets == map[] && outbox == []
      ensures winningNumber == "" && winningColor == "" && currentBet == "" && betResult == ""
      ensures resultHistory.entries == [] && resultHistory.log == []
      ensures betHistory.entries == [] && betHistory.log == []
    {
      bets := map[];
      winningNumber, winningColor, currentBet, betResult := "", "", "", "";
      resultHistory := new RecentList();
      betHistory := new RecentList();
      outbox := [];
    }

    /** A click on the box of `number`: count the click, describe the bet with
        the number's colour, log the description and publish the bet. */
    method PlaceNumberBet(number: string)
      requires Valid()
      modifies this, betHistory
      ensures Valid()
      ensures bets == old(bets)[number := Increment(if number in old(bets) then old(bets)[number] else 0)]
      ensures currentBet == NumberBetText(number, ColorOf(number))
      ensures betHistory.log == old(betHistory.log) + [currentBet]
      ensures betHistory.entries == Window(betHistory.log)
      ensures outbox == old(outbox) + [BetEvent(number, ColorOf(number))]
      ensures winningNumber == old(winningNumber) && winningColor == old(winningColor)
      ensures betResult == old(betResult)
      ensures unchanged(resultHistory)
    {
      bets := bets[number := Increment(if number in bets then bets[number] else 0)];
      var color := ColorOf(number);
      currentBet := NumberBetText(number, color);
      betHistory.Add(currentBet);
      outbox := outbox + [BetEvent(number, color)];
    }

    /** A click on the red box: a colour-only bet, published with no number. */
    method PlaceRedBet()
      requires Valid()
      modifies this, betHistory
      ensures Valid()
      ensures currentBet == ColorBetText("Red")
      ensures betHistory.log == old(betHistory.log) + [currentBet]
      ensures betHistory.entries == Window(betHistory.log)
      ensures outbox == old(outbox) + [BetEvent("", "red")]
      ensures bets == old(bets)
      ensures winningNumber == old(winningNumber) && winningColor == old(winningColor)
      ensures betResult == old(betResult)
      ensures unchanged(resultHistory)
    {
      currentBet := ColorBetText("Red");
      betHistory.Add(currentBet);
      outbox := outbox + [BetEvent("", "red")];
    }

    /** A click on the black box: a colour-only bet, published with no number. */
    method PlaceBlackBet()
      requires Valid()
      modifies this, betHistory
      ensures Valid()
      ensures currentBet == ColorBetText("Black")
      ensures betHistory.log == old(betHistory.log) + [currentBet]
      ensures betHistory.entries == Window(betHistory.log)
      ensures outbox == old(outbox) + [BetEvent("", "black")]
      ensures bets == old(bets)
      ensures winningNumber == old(winningNumber) && winningColor == old(winningColor)
      ensures betResult == old(betResult)
      ensures unchanged(resultHistory)
    {
      currentBet := ColorBetText("Black");
      betHistory.Add(currentBet);
      outbox := outbox + [BetEvent("", "black")];
    }

    /** The result listener: record the winning number and colour, judge the
        current bet (the empty one included) and log "<number> - <color>". */
    method OnResultReceived(number: Int32, color: string)
      requires Valid()
      modifies this, resultHistory
      ensures Valid()
      ensures winningNumber == IntToString(number as int) && winningColor == color
      ensures ParseInt(winningNumber) == Some(number as int)
      ensures betResult == CheckBetResult(old(currentBet), winningNumber, winningColor)
      ensures resultHistory.log == old(resultHistory.log) + [winningNumber + " - " + winningColor]
      ensures resultHistory.entries == Window(resultHistory.log)
      ensures currentBet == old(currentBet) && bets == old(bets) && outbox == old(outbox)
      ensures unchanged(betHistory)
    {
      winningNumber := IntToString(number as int);
      IntToStringRoundTrip(number as int);
      winningColor := color;
      betResult := CheckBetResult(currentBet, winningNumber, winningColor);
      resultHistory.Add(winningNumber + " - " + winningColor);
    }
  }

  /** A bet on 17 followed by a result of 17, black: the bet is described and
      published as black, and the verdict is the winner message. */
  method SeventeenBlackScenario()
  {
    var board := new RouletteBoard();
    board.PlaceNumberBet("17");
    assert ColorOf("17") == "black";
    assert board.outbox == [BetEvent("17", "black")];
    assert board.betHistory.entries == [NumberBetText("17", "black")];
    board.OnResultReceived(17, "black");
    NumberBetOutcome("17", board.winningNumber, "black");
    assert EqualsIgnoreCase("black", "black");
    assert board.betResult == WinnerMessage("black");
    assert |board.resultHistory.entries| == 1;
  }

  /** Six bets in a row: the log keeps the last five, the first one dropped,
      and only the number bets are counted. */
  method SixBetsScenario()
  {
    var board := new RouletteBoard();
    var red, black := ColorBetText("Red"), ColorBetText("Black");
    board.PlaceNumberBet("0");
    var zero := board.currentBet;
    assert board.bets == map["0" := 1];
    assert board.outbox == [BetEvent("0", "green")];
    board.PlaceRedBet();
    board.PlaceBlackBet();
    board.PlaceRedBet();
    board.PlaceBlackBet();
    assert board.betHistory.log == [zero, red, black, red, black];
    assert board.betHistory.entries == [zero, red, black, red, black];
    board.PlaceRedBet();
    assert board.betHistory.log == [zero, red, black, red, black, red];
    assert board.betHistory.entries == [red, black, red, black, red];
    assert board.bets == map["0" := 1];
    assert |board.outbox| == 6 && board.outbox[0] == BetEvent("0", "green");
  }
}
