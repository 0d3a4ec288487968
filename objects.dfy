/** Change tracking keyed by hash code: a global table of counters that
    callers bump on change and compare against a counter of their own. */
module Objects {
  import opened DotNet

  /** The ChangeCounters table.  Objects are known only by their hash code,
      so objects with equal hash codes share one counter. */
  class ObjectChange {
    var counters: map<int, int>

    constructor ()
      ensures counters == map[]
    {
      counters := map[];
    }

    /** NotifyChange: bump the counter of `hc`, starting at 1, and return
        it.  The unchecked `++` wraps at int.MaxValue. */
    method NotifyChange(hc: int) returns (r: int)
      modifies this
      ensures hc !in old(counters) ==> r == 1
      ensures hc in old(counters) ==> r == WrapInt32(old(counters)[hc] + 1)
      ensures counters == old(counters)[hc := r]
      ensures hc in old(counters) ==> CheckChanged(hc, old(counters)[hc]).0
    {
      if hc in counters {
        counters := counters[hc := WrapInt32(counters[hc] + 1)];
      } else {
        counters := counters[hc := 1];
      }
      r := counters[hc];
    }

    /** CheckChanged: whether the counter of `hc` differs from the caller's
        copy `refchangecount`, paired with the caller's new copy; -1 and
        false for a hash that was never notified. */
    function CheckChanged(hc: int, refchangecount: int): (r: (bool, int))
      reads this
      ensures hc !in counters ==> r == (false, -1)
      ensures hc in counters ==> r.1 == counters[hc] && (r.0 <==> counters[hc] != refchangecount)
    {
      if hc in counters then
        var res := counters[hc] != refchangecount;
        (res, counters[hc])
      else (false, -1)
    }
  }

  /** A check right after another, with no notification in between, sees
      no change. */
  lemma CheckChangedTwice(o: ObjectChange, hc: int, refchangecount: int)
    ensures !o.CheckChanged(hc, o.CheckChanged(hc, refchangecount).1).0
  {
  }

  /** Bumping a 32-bit counter always changes it, even when it wraps. */
  lemma {:induction false} BumpChanges(c: int)
    ensures WrapInt32(c + 1) != c
  {
    if IsInt32(c + 1) {
    } else {
      assert (c + 1 - WrapInt32(c + 1)) % 0x1_0000_0000 == 0;
    }
  }
}
