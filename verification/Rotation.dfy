/** The order in which successive cycles visit the configured records (`src/updater.rs`). */
module Rotation {
  import opened Arithmetic

  const CURSOR_LIMIT := 0x1_0000_0000_0000_0000

  lemma ModAdd(a: nat, k: nat, n: nat)
    requires 0 < n
    ensures (a + k) % n == (a % n + k) % n
  {
    var q, s := a / n, (a % n + k) / n;
    var r := (a % n + k) % n;
    assert a == q * n + a % n && a % n + k == s * n + r;
    assert (q + s) * n == q * n + s * n;
    DivisionUnique(a + k, q + s, r, n);
  }

  lemma WrapOnce(x: nat, n: nat)
    requires 0 < n && x < 2 * n
    ensures x % n == if x < n then x else x - n
  {
    if x < n {
      DivisionUnique(x, 0, x, n);
    } else {
      DivisionUnique(x, 1, x - n, n);
    }
  }

  /** The record visited at offset `o` of a cycle that begins at index `start`. */
  function Visited(start: nat, o: nat, n: nat): (i: nat)
    requires start < n && o < n
    ensures i < n
  {
    if start + o < n then start + o else start + o - n
  }

  lemma VisitedIsModulo(start: nat, o: nat, n: nat)
    requires start < n && o < n
    ensures (start + o) % n == Visited(start, o, n)
  {
    WrapOnce(start + o, n);
  }

  /** The record at which the cycle run with this cursor value begins. */
  method StartIndex(cursor: nat, n: nat) returns (start: nat)
    requires 0 < n
    ensures start == Leader(cursor, n)
  {
    start := cursor % n;
  }

  /** The index computation of the record loop. */
  method IndexAt(start: nat, offset: nat, n: nat) returns (i: nat)
    requires start < n && offset < n
    ensures i == Visited(start, offset, n)
  {
    i := (start + offset) % n;
    VisitedIsModulo(start, offset, n);
  }

  /** The first `count` indices of the rotation that begins at `start`. */
  function FirstVisits(start: nat, n: nat, count: nat): (r: seq<nat>)
    requires start < n && count <= n
    ensures |r| == count
  {
    if count == 0 then [] else FirstVisits(start, n, count - 1) + [Visited(start, count - 1, n)]
  }

  /** The indices are the first ones of the rotation that begins at `start`. */
  predicate InRotation(visited: seq<nat>, start: nat, n: nat)
    requires start < n
  {
    |visited| <= n && visited == FirstVisits(start, n, |visited|)
  }

  /** At each offset the rotation is at that distance from its start, modulo the number of records. */
  lemma {:induction false} FirstVisitsAt(start: nat, n: nat, count: nat, o: nat)
    requires start < n && o < count <= n
    ensures FirstVisits(start, n, count)[o] == (start + o) % n
  {
    if o == count - 1 {
      VisitedIsModulo(start, o, n);
    } else {
      FirstVisitsAt(start, n, count - 1, o);
    }
  }

  /** The offset at which a cycle that begins at `start` reaches index `j`. */
  function Turn(start: nat, n: nat, j: nat): nat
    requires start < n && j < n
  {
    if start <= j then j - start else n + j - start
  }

  /** The first `offset` indices of the rotation are all in `done`. */
  predicate Covers(done: set<nat>, start: nat, n: nat, offset: nat)
    requires start < n && offset <= n
  {
    offset == 0 || (Visited(start, offset - 1, n) in done && Covers(done, start, n, offset - 1))
  }

  lemma {:induction false} CoversMore(done: set<nat>, more: set<nat>, start: nat, n: nat, offset: nat)
    requires start < n && offset <= n && Covers(done, start, n, offset) && done <= more
    ensures Covers(more, start, n, offset)
  {
    if offset > 0 {
      CoversMore(done, more, start, n, offset - 1);
    }
  }

  lemma {:induction false} CoversAt(done: set<nat>, start: nat, n: nat, offset: nat, o: nat)
    requires start < n && o < offset <= n && Covers(done, start, n, offset)
    ensures Visited(start, o, n) in done
  {
    if o < offset - 1 {
      CoversAt(done, start, n, offset - 1, o);
    }
  }

  /** The indices that the rotation visits from `offset` on. */
  function Remaining(start: nat, n: nat, offset: nat): (r: set<nat>)
    requires start < n && offset <= n
    ensures forall j :: j in r ==> j < n
    decreases n - offset
  {
    if offset == n then {} else {Visited(start, offset, n)} + Remaining(start, n, offset + 1)
  }

  lemma {:induction false} RemainingIsLater(start: nat, n: nat, offset: nat, o: nat)
    requires start < n && o < offset <= n
    ensures Visited(start, o, n) !in Remaining(start, n, offset)
    decreases n - offset
  {
    if offset < n {
      RemainingIsLater(start, n, offset + 1, o);
    }
  }

  lemma RemainingNext(start: nat, n: nat, offset: nat)
    requires start < n && offset < n
    ensures Visited(start, offset, n) in Remaining(start, n, offset)
    ensures Remaining(start, n, offset) - {Visited(start, offset, n)} == Remaining(start, n, offset + 1)
  {
    RemainingIsLater(start, n, offset + 1, offset);
  }

  lemma WholeRotationCovers(done: set<nat>, start: nat, n: nat)
    requires start < n && Covers(done, start, n, n)
    ensures forall j: nat :: j < n ==> j in done
  {
    forall j: nat | j < n
      ensures j in done
    {
      CoversAt(done, start, n, n, Turn(start, n, j));
    }
  }

  /** Each cycle visits the records in a permutation. */
  lemma VisitsArePermutation(start: nat, n: nat)
    requires start < n
    ensures forall j :: 0 <= j < n ==> Turn(start, n, j) < n && (start + Turn(start, n, j)) % n == j
    ensures forall a, b :: 0 <= a < b < n ==> Visited(start, a, n) != Visited(start, b, n)
  {
    forall j | 0 <= j < n
      ensures (start + Turn(start, n, j)) % n == j
    {
      VisitedIsModulo(start, Turn(start, n, j), n);
    }
  }

  /** The record that leads the cycle run with cursor value `c`. */
  function Leader(c: nat, n: nat): (i: nat)
    requires 0 < n
    ensures i < n
  {
    c % n
  }

  lemma LeaderAfter(cursor: nat, k: nat, n: nat)
    requires 0 < n && k < n
    ensures Leader(cursor + k, n) == Visited(Leader(cursor, n), k, n)
  {
    ModAdd(cursor, k, n);
    VisitedIsModulo(cursor % n, k, n);
  }

  lemma LeadersDiffer(c: nat, d: nat, n: nat)
    requires 0 < n && c < d < c + n
    ensures Leader(c, n) != Leader(d, n)
  {
    LeaderAfter(c, d - c, n);
  }

  lemma LeadsWithin(cursor: nat, n: nat, j: nat) returns (c: nat)
    requires 0 < n && j < n
    ensures cursor <= c < cursor + n && Leader(c, n) == j
  {
    var k := Turn(Leader(cursor, n), n, j);
    LeaderAfter(cursor, k, n);
    c := cursor + k;
  }

  /** Over `n` consecutive cursor values each record leads exactly once. */
  lemma EveryRecordLeadsOnce(cursor: nat, n: nat, j: nat)
    requires 0 < n && j < n
    ensures exists c :: cursor <= c < cursor + n && Leader(c, n) == j
    ensures forall c, d :: cursor <= c < d < cursor + n ==> Leader(c, n) != Leader(d, n)
  {
    var found := LeadsWithin(cursor, n, j);
    forall c, d | cursor <= c < d < cursor + n
      ensures Leader(c, n) != Leader(d, n)
    {
      LeadersDiffer(c, d, n);
    }
  }

  /** The cursor value of the `k`-th cycle after the one that ran with cursor value `c`. */
  function CursorAfter(c: nat, k: nat): nat {
    (c + k) % CURSOR_LIMIT
  }

  /** Each of these cycles visited a record, and first the one that its cursor value calls for. */
  predicate LedInTurn(visits: seq<seq<nat>>, cursor: nat, n: nat)
    requires 0 < n
  {
    forall k {:trigger visits[k]} :: 0 <= k < |visits| ==>
      visits[k] != [] && visits[k][0] == Leader(CursorAfter(cursor, k), n)
  }

  /** One more cycle. */
  lemma LedNext(visits: seq<seq<nat>>, cursor: nat, n: nat, visited: seq<nat>)
    requires 0 < n && LedInTurn(visits, cursor, n)
    requires visited != [] && InRotation(visited, Leader(CursorAfter(cursor, |visits|), n), n)
    ensures LedInTurn(visits + [visited], cursor, n)
  {
    FirstVisitsAt(Leader(CursorAfter(cursor, |visits|), n), n, |visited|, 0);
    WrapOnce(Leader(CursorAfter(cursor, |visits|), n), n);
  }

  lemma CursorAdvances(c: nat, k: nat)
    ensures (CursorAfter(c, k) + 1) % CURSOR_LIMIT == CursorAfter(c, k + 1)
  {
  }

  /**
   * Fairness: of any `n` consecutive cycles that visited a record, before the counter wraps, each
   * record is the first visit of exactly one. A record is therefore reached within `n` cycles even
   * if every cycle stops after its first record.
   */
  lemma EveryRecordIsReached(visits: seq<seq<nat>>, cursor: nat, n: nat, s: nat, j: nat) returns (k: nat)
    requires 0 < n && j < n && LedInTurn(visits, cursor, n)
    requires s + n <= |visits| && cursor + s + n <= CURSOR_LIMIT
    ensures s <= k < s + n && visits[k] != [] && visits[k][0] == j
    ensures forall l :: s <= l < s + n && l != k ==> visits[l] != [] && visits[l][0] != j
  {
    var c := LeadsWithin(cursor + s, n, j);
    k := c - cursor;
    assert CursorAfter(cursor, k) == c;
    forall l | s <= l < s + n && l != k
      ensures visits[l] != [] && visits[l][0] != j
    {
      assert CursorAfter(cursor, l) == cursor + l;
      if l < k {
        LeadersDiffer(cursor + l, c, n);
      } else {
        LeadersDiffer(c, cursor + l, n);
      }
    }
  }

  /**
   * The counter is 64 bits wide. Across its wrap the rotation keeps its order exactly when the
   * number of records divides two to the sixty-fourth.
   */
  lemma WrapKeepsOrder(n: nat)
    requires 1 < n
    ensures Leader((CURSOR_LIMIT - 1 + 1) % CURSOR_LIMIT, n) == Visited(Leader(CURSOR_LIMIT - 1, n), 1, n)
       <==> CURSOR_LIMIT % n == 0
  {
    LeaderAfter(CURSOR_LIMIT - 1, 1, n);
    WrapOnce(0, n);
  }
}
