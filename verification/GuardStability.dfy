/** What the interleaved processes guarantee is what a cycle and a check rely on. */
module GuardStability {
  import opened Configuration
  import opened DnsStore
  import opened Fleet
  import opened SyncCycle

  /** A slot that the guard of `p` covers is the slot of one of its records. */
  lemma CoveredIsConfigured(c: Setup, p: nat, s: Slot) returns (i: nat)
    requires ValidSetup(c) && p < |c.configs|
    requires Covered(c.zoneName, Resources(c.configs[p]), s)
    ensures MayResolve(c, p, i, s.zoneId) && WorkSlot(c, p, i, s.zoneId) == s
  {
    var cover := Resources(c.configs[p]);
    var r :| r in cover && Claims(r, c.zoneName, s);
    i :| 0 <= i < |c.configs[p]| && r == Named(c.configs[p][i]);
  }

  /**
   * What a cycle or a check relies on between two of its own steps: the part of the store that its
   * guard covers does not change, however many steps the other processes take.
   */
  lemma GuardedPartIsStable(c: Setup, run: seq<State>, p: nat, m: nat, n: nat)
    requires FleetRun(c, run) && m <= n < |run| && Idle(c, run, p, m, n) && p < |c.configs|
    ensures var cover := Resources(c.configs[p]);
            GuardedPart(c.zoneName, cover, run[n].store) == GuardedPart(c.zoneName, cover, run[m].store)
  {
    var cover := Resources(c.configs[p]);
    forall s | Covered(c.zoneName, cover, s)
      ensures SlotView(run[n].store, s) == SlotView(run[m].store, s)
    {
      RunIsValid(c, run);
      var i := CoveredIsConfigured(c, p, s);
      GuardHoldsOverStretch(c, run, p, m, n, i, s.zoneId);
    }
    SlotsMakeThePart(c.zoneName, cover, run[m].store, run[n].store);
  }

  lemma RunIsValid(c: Setup, run: seq<State>)
    requires FleetRun(c, run)
    ensures ValidSetup(c)
  {
  }

  /** Two stores that agree in every covered slot have the same guarded part. */
  lemma SlotsMakeThePart(zoneName: map<string, string>, cover: set<Resource>, a: Store, b: Store)
    requires forall s :: Covered(zoneName, cover, s) ==> SlotView(b, s) == SlotView(a, s)
    ensures GuardedPart(zoneName, cover, b) == GuardedPart(zoneName, cover, a)
  {
    var x, y := GuardedPart(zoneName, cover, a), GuardedPart(zoneName, cover, b);
    forall k
      ensures k in x <==> k in y
      ensures k in x ==> x[k] == y[k]
    {
      if k in x {
        var s := RecordSlot(k, a[k]);
        assert k in SlotView(a, s) && SlotView(b, s) == SlotView(a, s);
        assert SlotView(b, s)[k] == b[k];
      }
      if k in y {
        var s := RecordSlot(k, b[k]);
        assert k in SlotView(b, s) && SlotView(b, s) == SlotView(a, s);
        assert SlotView(a, s)[k] == a[k];
      }
    }
  }
}
