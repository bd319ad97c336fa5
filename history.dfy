/** The two on-screen logs of recent bets and recent results: a list that
    grows by `add` and drops its oldest entry with `removeAt(0)` whenever it
    grows past five entries. */
module History {

  /** How many entries a log keeps. */
  const Capacity: nat := 5

  /** The last `Capacity` entries of everything ever added, oldest first
      (all of it while there are fewer). */
  function Window<T>(log: seq<T>): (w: seq<T>)
  {
    if |log| <= Capacity then log else log[|log| - Capacity..]
  }

  /** The window holds min(k, 5) entries, and they are the newest ones of the
      log, in the order they were added. */
  lemma WindowIsNewestSuffix<T>(log: seq<T>)
    ensures |Window(log)| == if |log| < Capacity then |log| else Capacity
    ensures forall i :: 0 <= i < |Window(log)| ==>
              Window(log)[i] == log[|log| - |Window(log)| + i]
  {
  }

  /** One `add` followed by `removeAt(0)` on overflow moves the window of the
      log on by one entry: the new entry goes last and, once the window is
      full, the oldest entry and only that one is dropped. */
  lemma WindowStep<T>(log: seq<T>, x: T)
    ensures Window(log + [x]) ==
            (if |Window(log) + [x]| > Capacity then (Window(log) + [x])[1..] else Window(log) + [x])
  {
  }

  /** A log object as the board holds it: `entries` is what is shown, the
      ghost `log` is every entry ever added. */
  class RecentList {
    var entries: seq<string>
    ghost var log: seq<string>

    ghost predicate Valid()
      reads this
    {
      entries == Window(log)
    }

    constructor ()
      ensures Valid() && entries == [] && log == []
    {
      entries := [];
      log := [];
    }

    /** `add(x)`, then `removeAt(0)` if the list is longer than five. */
    method Add(x: string)
      requires Valid()
      modifies this
      ensures Valid() && log == old(log) + [x]
      ensures |entries| <= Capacity
      ensures entries == if |old(entries)| < Capacity then old(entries) + [x]
                         else old(entries)[1..] + [x]
    {
      WindowStep(log, x);
      WindowIsNewestSuffix(log);
      entries := entries + [x];
      if |entries| > Capacity {
        entries := entries[1..];
      }
      log := log + [x];
    }
  }
}
