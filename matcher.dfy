/** The bet descriptions the board writes into `currentBet`, and
    `checkBetResult`, which reads the colour back out of such a description
    and compares it with the winning colour. */
module Matcher {
  import opened Text
  import opened Board

  const WinnerPrefix: string := "Winner Winner Chicken Dinner! Winning Color: "
  const LoserPrefix: string := "U lose. Winning Color: "

  function WinnerMessage(winningColor: string): string
  {
    WinnerPrefix + winningColor
  }

  function LoserMessage(winningColor: string): string
  {
    LoserPrefix + winningColor
  }

  /** What a click on a number box writes into `currentBet`. */
  function NumberBetText(number: string, color: string): string
  {
    "Number: " + number + ", Color: " + color
  }

  /** What a click on the red or black box writes into `currentBet`
      ("Color: Red", "Color: Black"). */
  function ColorBetText(name: string): string
  {
    "Color: " + name
  }

  /** The last part of `s.split(sep)` is the tail of `s`. */
  lemma {:induction false} LastPartIsSuffix(s: string, sep: string)
    requires sep != []
    ensures |Last(Split(s, sep))| <= |s|
    ensures s[|s| - |Last(Split(s, sep))|..] == Last(Split(s, sep))
    decreases |s|
  {
    if |s| < |sep| {
    } else if s[..|sep|] == sep {
      var rest := Split(s[|sep|..], sep);
      LastPartIsSuffix(s[|sep|..], sep);
      assert Last(Split(s, sep)) == Last(rest);
    } else {
      var rest := Split(s[1..], sep);
      if |rest| == 1 {
        JoinSplit(s[1..], sep);
        assert Last(Split(s, sep)) == [s[0]] + s[1..] == s;
      } else {
        LastPartIsSuffix(s[1..], sep);
        assert Last(Split(s, sep)) == Last(rest);
      }
    }
  }

  /** `currentBet.split(", ").last().split(": ").last()`: the colour named
      at the end of a bet description. It is always a tail of the
      description. */
  function BetColor(bet: string): (color: string)
    ensures |color| <= |bet| && bet[|bet| - |color|..] == color
  {
    var part := Last(Split(bet, ", "));
    LastPartIsSuffix(bet, ", ");
    LastPartIsSuffix(part, ": ");
    Last(Split(part, ": "))
  }

  /** `checkBetResult`: the winner message exactly when the colour at the end
      of the bet equals the winning colour ignoring case, and the loser
      message otherwise; both end with the winning colour. */
  function CheckBetResult(currentBet: string, winningNumber: string, winningColor: string): (message: string)
    ensures message == WinnerMessage(winningColor) <==>
            EqualsIgnoreCase(BetColor(currentBet), winningColor)
    ensures message == WinnerMessage(winningColor) || message == LoserMessage(winningColor)
  {
    assert |WinnerMessage(winningColor)| != |LoserMessage(winningColor)|;
    if EqualsIgnoreCase(BetColor(currentBet), winningColor) then WinnerMessage(winningColor)
    else LoserMessage(winningColor)
  }

  /** The winning number plays no part in the verdict. */
  lemma CheckIgnoresWinningNumber(currentBet: string, n1: string, n2: string, winningColor: string)
    ensures CheckBetResult(currentBet, n1, winningColor) == CheckBetResult(currentBet, n2, winningColor)
  {
  }

  // ---------------------------------------------------------------------
  // Reading back the bets the board writes
  // ---------------------------------------------------------------------

  /** The colour read back from "Color: <name>" is `name`. */
  lemma ColorBetColor(name: string)
    requires ',' !in name && ':' !in name
    ensures BetColor(ColorBetText(name)) == name
  {
    var bet := ColorBetText(name);
    assert ',' !in bet by {
      forall i | 0 <= i < |bet| ensures bet[i] != ',' {
        if i >= 7 { assert bet[i] == name[i - 7]; }
      }
    }
    SplitWithout(bet, ", ");
    assert bet == "Color" + ": " + name;
    assert ':' !in "Color";
    SplitAt("Color", ": ", name);
    SplitWithout(name, ": ");
  }

  /** The colour read back from "Number: <n>, Color: <c>" is `c`, whatever
      the number, as long as neither contains the separators. */
  lemma NumberBetColor(number: string, color: string)
    requires ',' !in number && ',' !in color && ':' !in color
    ensures BetColor(NumberBetText(number, color)) == color
  {
    var head := "Number: " + number;
    assert ',' !in head by {
      forall i | 0 <= i < |head| ensures head[i] != ',' {
        if i >= 8 { assert head[i] == number[i - 8]; }
      }
    }
    assert NumberBetText(number, color) == head + ", " + ColorBetText(color);
    SplitAt(head, ", ", ColorBetText(color));
    var tail := ColorBetText(color);
    assert ',' !in tail by {
      forall i | 0 <= i < |tail| ensures tail[i] != ',' {
        if i >= 7 { assert tail[i] == color[i - 7]; }
      }
    }
    SplitWithout(tail, ", ");
    assert Last(Split(NumberBetText(number, color), ", ")) == tail;
    ColorBetColor(color);
  }

  /** No colour name contains a separator. */
  lemma ColorNamesHaveNoSeparators(c: string)
    requires c in ColorNames
    ensures ',' !in c && ':' !in c
  {
  }

  /** Every description the click handlers write reads back as the colour it
      was built with: the board colour for a number bet, "Red" or "Black" for
      a colour bet; the initial empty bet reads back as "". */
  lemma HandlerBetsReadBack(number: string)
    requires ',' !in number
    ensures BetColor(NumberBetText(number, ColorOf(number))) == ColorOf(number)
    ensures BetColor(ColorBetText("Red")) == "Red"
    ensures BetColor(ColorBetText("Black")) == "Black"
    ensures BetColor("") == ""
  {
    ColorNamesHaveNoSeparators(ColorOf(number));
    NumberBetColor(number, ColorOf(number));
    ColorBetColor("Red");
    ColorBetColor("Black");
  }

  /** Every number on the board reads back as its board colour. */
  lemma BoardBetsReadBack(number: string)
    requires number in Numbers
    ensures BetColor(NumberBetText(number, ColorOf(number))) == ColorOf(number)
  {
    BoardNumbersHaveNoSeparators();
    HandlerBetsReadBack(number);
  }

  // ---------------------------------------------------------------------
  // Verdicts on the bets the board writes
  // ---------------------------------------------------------------------

  /** A number bet wins exactly when its board colour equals the winning
      colour ignoring case. */
  lemma NumberBetOutcome(number: string, winningNumber: string, winningColor: string)
    requires ',' !in number
    ensures CheckBetResult(NumberBetText(number, ColorOf(number)), winningNumber, winningColor)
            == if EqualsIgnoreCase(ColorOf(number), winningColor) then WinnerMessage(winningColor)
               else LoserMessage(winningColor)
  {
    HandlerBetsReadBack(number);
  }

  /** A colour bet wins exactly when its colour name equals the winning colour
      ignoring case, so "Color: Red" wins on "red" and loses on "black". */
  lemma ColorBetOutcome(name: string, winningNumber: string, winningColor: string)
    requires name == "Red" || name == "Black"
    ensures CheckBetResult(ColorBetText(name), winningNumber, winningColor)
            == if EqualsIgnoreCase(name, winningColor) then WinnerMessage(winningColor)
               else LoserMessage(winningColor)
  {
    ColorBetColor(name);
  }

  /** With no bet placed the verdict is still computed, on the empty colour:
      it is the winner message only for an empty winning colour. */
  lemma EmptyBetOutcome(winningNumber: string, winningColor: string)
    ensures CheckBetResult("", winningNumber, winningColor) == WinnerMessage(winningColor)
            <==> winningColor == ""
  {
    HandlerBetsReadBack("");
  }
}
