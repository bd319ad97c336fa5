/** The fixed layout of the American roulette table: the 38 numbers shown on
    the board, the two green zeros and the red and black sets, and the colour
    each number is announced with when it is bet on. */
module Board {

  /** Every number on the board, in the order the grid lays them out. */
  const Numbers: seq<string> := [
    "0", "00", "1", "2", "3", "4", "5", "6", "7", "8", "9", "10", "11", "12",
    "13", "14", "15", "16", "17", "18", "19", "20", "21", "22", "23", "24",
    "25", "26", "27", "28", "29", "30", "31", "32", "33", "34", "35", "36"]

  /** The two zeros, which the colour mapping matches by name. */
  const GreenList: seq<string> := ["0", "00"]

  /** The red and black sets, listed in the order they are written. */
  const RedList: seq<string> := [
    "1", "3", "5", "7", "9", "12", "14", "16", "18", "19", "21", "23", "25",
    "27", "30", "32", "34", "36"]

  const BlackList: seq<string> := [
    "2", "4", "6", "8", "10", "11", "13", "15", "17", "20", "22", "24", "26",
    "28", "29", "31", "33", "35"]

  function Elements(s: seq<string>): set<string>
  {
    set n | n in s
  }

  const GreenNumbers: set<string> := Elements(GreenList)
  const RedNumbers: set<string> := Elements(RedList)
  const BlackNumbers: set<string> := Elements(BlackList)

  /** The colour names a bet can carry. */
  const ColorNames: set<string> := {"green", "red", "black", "unknown"}

  /** The colour attached to a number bet: the green zeros first, then the red
      set, then the black set, and "unknown" for anything else. */
  function ColorOf(number: string): (color: string)
    ensures color in ColorNames
  {
    if number == "0" || number == "00" then "green"
    else if number in RedNumbers then "red"
    else if number in BlackNumbers then "black"
    else "unknown"
  }

  // ---------------------------------------------------------------------
  // Counting the members of a list
  // ---------------------------------------------------------------------

  predicate Distinct(s: seq<string>)
  {
    forall i, j :: 0 <= i < j < |s| ==> s[i] != s[j]
  }

  /** A list has at most as many members as entries. */
  lemma {:induction false} ElementsBound(s: seq<string>)
    ensures |Elements(s)| <= |s|
  {
    if s != [] {
      ElementsBound(s[1..]);
      assert Elements(s) == Elements(s[1..]) + {s[0]} by {
        assert s == [s[0]] + s[1..];
      }
    }
  }

  /** A list has as many members as entries exactly when it has no
      repetitions. */
  lemma {:induction false} DistinctCardinality(s: seq<string>)
    ensures Distinct(s) <==> |Elements(s)| == |s|
  {
    if s != [] {
      var t := s[1..];
      assert Elements(s) == Elements(t) + {s[0]} by {
        assert s == [s[0]] + t;
      }
      DistinctCardinality(t);
      ElementsBound(t);
      if s[0] in t {
        var k :| 0 <= k < |t| && t[k] == s[0];
        assert s[0] == s[k + 1];
        assert Elements(s) == Elements(t);
      } else {
        assert Distinct(s) <==> Distinct(t) by {
          if Distinct(t) {
            forall i, j | 0 <= i < j < |s| ensures s[i] != s[j] {
              if i > 0 { assert s[i] == t[i - 1] && s[j] == t[j - 1]; }
              else { assert s[j] == t[j - 1]; }
            }
          }
          if Distinct(s) {
            forall i, j | 0 <= i < j < |t| ensures t[i] != t[j] {
              assert t[i] == s[i + 1] && t[j] == s[j + 1];
            }
          }
        }
      }
    }
  }

  /** Two lists with no entry in common have no member in common. */
  lemma ListsApart(s: seq<string>, t: seq<string>)
    requires forall i, j :: 0 <= i < |s| && 0 <= j < |t| ==> s[i] != t[j]
    ensures Elements(s) !! Elements(t)
  {
  }

  // ---------------------------------------------------------------------
  // Properties of the board
  // ---------------------------------------------------------------------

  /** No number is in two colour sets. */
  lemma ColorSetsDisjoint()
    ensures GreenNumbers !! RedNumbers
    ensures GreenNumbers !! BlackNumbers
    ensures RedNumbers !! BlackNumbers
  {
    assert forall i, j :: 0 <= i < |RedList| && 0 <= j < |BlackList| ==> RedList[i] != BlackList[j];
    ListsApart(GreenList, RedList);
    ListsApart(GreenList, BlackList);
    ListsApart(RedList, BlackList);
  }

  /** The three colour sets together are exactly the numbers on the board. */
  lemma BoardIsPartitioned()
    ensures Elements(Numbers) == GreenNumbers + RedNumbers + BlackNumbers
  {
  }

  /** The colour sets have 2, 18 and 18 members. */
  lemma ColorSetSizes()
    ensures |GreenNumbers| == 2 && |RedNumbers| == 18 && |BlackNumbers| == 18
  {
    assert Distinct(GreenList) && Distinct(RedList) && Distinct(BlackList);
    DistinctCardinality(GreenList);
    DistinctCardinality(RedList);
    DistinctCardinality(BlackList);
  }

  /** The board lists 38 distinct numbers. */
  lemma BoardNumbersDistinct()
    ensures |Numbers| == 38 && Distinct(Numbers)
  {
    ColorSetsDisjoint();
    BoardIsPartitioned();
    ColorSetSizes();
    assert |GreenNumbers + RedNumbers| == 20;
    DistinctCardinality(Numbers);
  }

  /** A number gets one of the three real colours exactly when it is on the
      board; "unknown" is only reachable from off the board. */
  lemma ColorOfBoardNumber(n: string)
    ensures n in Numbers <==> ColorOf(n) in {"green", "red", "black"}
    ensures ColorOf(n) == "unknown" <==> n !in Numbers
  {
    BoardIsPartitioned();
    assert n in Numbers <==> n in Elements(Numbers);
  }

  /** The colour of a number is the colour of the one set it belongs to. */
  lemma ColorOfFollowsSets(n: string)
    ensures ColorOf(n) == "green" <==> n in GreenNumbers
    ensures ColorOf(n) == "red" <==> n in RedNumbers
    ensures ColorOf(n) == "black" <==> n in BlackNumbers
  {
    ColorSetsDisjoint();
  }

  /** Board numbers are plain decimal digits, so they never contain the
      separators ", " and ": " used in bet descriptions. */
  lemma BoardNumbersHaveNoSeparators()
    ensures forall i :: 0 <= i < |Numbers| ==> ',' !in Numbers[i] && ':' !in Numbers[i]
  {
  }
}
