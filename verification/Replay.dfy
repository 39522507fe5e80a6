/** The sliding replay window that the command server and the command client each keep. */
module Replay {
  import opened Ints

  /** One remembered (timestamp, nonce) pair. */
  datatype Entry = Entry(ts: i64, nonce: Bytes)

  /** The window test, in the `i64` arithmetic of the program. */
  predicate InWindow(window: u32, now: i64, ts: i64) {
    AbsI64(WrapI64(now - ts)) <= window
  }

  /** The retention test of the pruning pass, in the `i64` arithmetic of the program. */
  predicate Live(window: u32, now: i64, e: Entry) {
    WrapI64(e.ts + window) >= now
  }

  function Retain(entries: seq<Entry>, window: u32, now: i64): seq<Entry> {
    if entries == [] then []
    else if Live(window, now, entries[0]) then [entries[0]] + Retain(entries[1..], window, now)
    else Retain(entries[1..], window, now)
  }

  /** What `replay_check` leaves in the queue. */
  function Pruned(entries: seq<Entry>, window: u32, now: i64, ts: i64): seq<Entry> {
    if InWindow(window, now, ts) then Retain(entries, window, now) else entries
  }

  /** What `replay_check` answers. */
  predicate Accepts(entries: seq<Entry>, window: u32, now: i64, e: Entry) {
    InWindow(window, now, e.ts) && e !in Retain(entries, window, now)
  }

  /** The queue after `replay_add`: at most `maxSize` entries, the oldest dropped first. */
  function Pushed(entries: seq<Entry>, maxSize: u32, e: Entry): (r: seq<Entry>)
    ensures |r| <= maxSize
  {
    var longer := entries + [e];
    if |longer| > maxSize then longer[|longer| - maxSize..] else longer
  }

  class ReplayWindow {
    const window: u32
    const maxSize: u32
    var entries: seq<Entry>

    constructor (window: u32, maxSize: u32)
      ensures this.window == window && this.maxSize == maxSize && entries == []
    {
      this.window := window;
      this.maxSize := maxSize;
      entries := [];
    }

    method ReplayCheck(now: i64, ts: i64, nonce: Bytes) returns (ok: bool)
      modifies this`entries
      ensures entries == Pruned(old(entries), window, now, ts)
      ensures ok == Accepts(old(entries), window, now, Entry(ts, nonce))
    {
      if AbsI64(WrapI64(now - ts)) > window {
        return false;
      }
      entries := Retain(entries, window, now);
      for i := 0 to |entries|
        invariant forall j :: 0 <= j < i ==> entries[j] != Entry(ts, nonce)
      {
        if entries[i].ts == ts && entries[i].nonce == nonce {
          assert entries[i] == Entry(ts, nonce);
          return false;
        }
      }
      ok := true;
    }

    method ReplayAdd(ts: i64, nonce: Bytes)
      modifies this`entries
      ensures entries == Pushed(old(entries), maxSize, Entry(ts, nonce))
    {
      entries := entries + [Entry(ts, nonce)];
      ghost var longer := entries;
      ghost var popped := 0;
      while |entries| > maxSize
        invariant 0 <= popped <= |longer| && entries == longer[popped..]
        invariant popped == 0 || |entries| >= maxSize
      {
        entries := entries[1..];
        popped := popped + 1;
      }
    }
  }

  /** A clock reading for which no sum or difference in the window tests leaves the `i64` range. */
  predicate ClockRange(t: int) {
    0 <= t < TWO_62
  }

  /** The window test over the integers. */
  predicate Near(window: nat, now: int, ts: int) {
    now - ts <= window && ts - now <= window
  }

  /** The window test means |now - ts| <= window for every timestamp but one: at `now - 2^63` the
      difference and its absolute value both wrap, and the test passes. */
  lemma WindowTestExact(window: u32, now: i64, ts: i64)
    requires ClockRange(now)
    ensures ts == now - TWO_63 ==> InWindow(window, now, ts)
    ensures (InWindow(window, now, ts) <==> Near(window, now, ts)) <==> ts != now - TWO_63
  {
    var d: int := now - ts;
    if d >= TWO_63 {
      assert WrapI64(d) == d - TWO_64;
    } else {
      assert WrapI64(d) == d;
    }
  }

  /** At that one timestamp the pruning pass forgets the pair at once, so a pair just added is accepted again. */
  lemma WrappedTimestampIsForgotten(window: u32, now: i64, maxSize: u32, nonce: Bytes)
    requires ClockRange(now)
    ensures var e := Entry(now - TWO_63, nonce);
            Accepts([], window, now, e) && Accepts(Pushed([], maxSize, e), window, now, e)
  {
    var e := Entry(now - TWO_63, nonce);
    WindowTestExact(window, now, e.ts);
    assert WrapI64(e.ts + window) == e.ts + window;
    assert Pushed([], maxSize, e) == [] || Pushed([], maxSize, e) == [e];
    assert Retain([e], window, now) == [];
  }

  /** The retention test means `ts + window >= now` exactly where the sum stays in the `i64` range. */
  lemma LiveExact(window: u32, now: i64, e: Entry)
    requires ClockRange(now)
    ensures (Live(window, now, e) <==> e.ts + window >= now) <==> e.ts + window < TWO_63
  {
    var d: int := e.ts + window;
    if d < TWO_63 {
      assert WrapI64(d) == d;
    } else {
      assert WrapI64(d) == d - TWO_64;
    }
  }

  /** A pair that pruning drops could pass the window test, now or at any later time, at one clock only: the one
      exactly 2^63 seconds after its timestamp, where the test wraps. */
  lemma PruningDropsOnlyExpired(window: u32, now: i64, later: i64, e: Entry)
    requires ClockRange(now) && ClockRange(later) && now <= later
    requires !Live(window, now, e)
    ensures InWindow(window, later, e.ts) <==> e.ts == later - TWO_63
  {
    LiveExact(window, now, e);
    WindowTestExact(window, later, e.ts);
  }

  lemma {:induction false} RetainMember(entries: seq<Entry>, window: u32, now: i64, e: Entry)
    ensures e in Retain(entries, window, now) <==> e in entries && Live(window, now, e)
  {
    if entries == [] {
    } else {
      RetainMember(entries[1..], window, now, e);
      assert entries == [entries[0]] + entries[1..];
    }
  }

  // ---- The queue against the full history of additions ----

  /** The queue holds, in order, the history entries at the indices `ids`. */
  ghost predicate Holds(history: seq<Entry>, ids: seq<nat>, entries: seq<Entry>) {
    && |ids| == |entries|
    && (forall k :: 0 <= k < |ids| ==> ids[k] < |history| && entries[k] == history[ids[k]])
    && (forall j, k :: 0 <= j < k < |ids| ==> ids[j] < ids[k])
  }

  /** Every history entry outside `ids` expired, or had `maxSize` additions after it. */
  ghost predicate Accounted(window: u32, maxSize: u32, now: int, history: seq<Entry>, ids: seq<nat>) {
    forall i :: 0 <= i < |history| ==>
      i in ids || history[i].ts + window < now || |history| - i - 1 >= maxSize
  }

  /** The queue is a pruned view of the history of additions, as seen at time `now`. */
  ghost predicate Tracks(window: u32, maxSize: u32, now: int, history: seq<Entry>, entries: seq<Entry>) {
    && |entries| <= maxSize
    && exists ids :: Holds(history, ids, entries) && Accounted(window, maxSize, now, history, ids)
  }

  /** Timestamps for which the retention test is exact. */
  ghost predicate Tame(history: seq<Entry>) {
    forall i :: 0 <= i < |history| ==> history[i].ts < TWO_62 + 0x1_0000_0000
  }

  lemma TracksBy(
      window: u32, maxSize: u32, now: int, history: seq<Entry>, entries: seq<Entry>, ids: seq<nat>)
    requires |entries| <= maxSize
    requires Holds(history, ids, entries) && Accounted(window, maxSize, now, history, ids)
    ensures Tracks(window, maxSize, now, history, entries)
  {
  }

  lemma TracksInitially(window: u32, maxSize: u32, now: int)
    ensures Tracks(window, maxSize, now, [], [])
  {
    var ids: seq<nat> := [];
    assert Holds([], ids, []) && Accounted(window, maxSize, now, [], ids);
  }

  lemma TracksLater(window: u32, maxSize: u32, now: int, later: int, history: seq<Entry>, entries: seq<Entry>)
    requires Tracks(window, maxSize, now, history, entries) && now <= later
    ensures Tracks(window, maxSize, later, history, entries)
  {
    var ids :| Holds(history, ids, entries) && Accounted(window, maxSize, now, history, ids);
    assert Accounted(window, maxSize, later, history, ids);
  }

  lemma HoldsTail(history: seq<Entry>, ids: seq<nat>, entries: seq<Entry>)
    requires Holds(history, ids, entries) && ids != []
    ensures Holds(history, ids[1..], entries[1..])
    ensures ids[0] < |history| && entries[0] == history[ids[0]] && forall i :: i in ids[1..] ==> ids[0] < i
  {
  }

  lemma HoldsCons(history: seq<Entry>, id: nat, ids: seq<nat>, entries: seq<Entry>)
    requires Holds(history, ids, entries) && id < |history| && forall i :: i in ids ==> id < i
    ensures Holds(history, [id] + ids, [history[id]] + entries)
  {
    forall k | 0 <= k < |ids|
      ensures id < ids[k]
    {
      assert ids[k] in ids;
    }
  }

  /** Pruning keeps the indices of live entries, in order. */
  lemma {:induction false} RetainHolds(
      window: u32, now: i64, history: seq<Entry>, ids: seq<nat>, entries: seq<Entry>) returns (kept: seq<nat>)
    requires Holds(history, ids, entries)
    ensures Holds(history, kept, Retain(entries, window, now)) && |kept| <= |ids|
    ensures forall i :: i in kept ==> i in ids
    ensures forall i :: i in ids && i < |history| && Live(window, now, history[i]) ==> i in kept
  {
    if ids == [] {
      kept := [];
    } else {
      HoldsTail(history, ids, entries);
      var rest := RetainHolds(window, now, history, ids[1..], entries[1..]);
      hide Holds, Live;
      assert ids == [ids[0]] + ids[1..];
      if Live(window, now, entries[0]) {
        HoldsCons(history, ids[0], rest, Retain(entries[1..], window, now));
        kept := [ids[0]] + rest;
      } else {
        kept := rest;
      }
    }
  }

  lemma TracksPruned(window: u32, maxSize: u32, now: i64, ts: i64, history: seq<Entry>, entries: seq<Entry>)
    requires Tracks(window, maxSize, now, history, entries)
    requires ClockRange(now) && Tame(history)
    ensures Tracks(window, maxSize, now, history, Pruned(entries, window, now, ts))
  {
    if InWindow(window, now, ts) {
      var ids :| Holds(history, ids, entries) && Accounted(window, maxSize, now, history, ids);
      var kept := RetainHolds(window, now, history, ids, entries);
      forall i | 0 <= i < |history|
        ensures i in kept || history[i].ts + window < now || |history| - i - 1 >= maxSize
      {
        LiveExact(window, now, history[i]);
      }
      assert Accounted(window, maxSize, now, history, kept);
    }
  }

  lemma HoldsPushed(history: seq<Entry>, ids: seq<nat>, entries: seq<Entry>, e: Entry) returns (longer: seq<nat>)
    requires Holds(history, ids, entries)
    ensures Holds(history + [e], longer, entries + [e])
    ensures |longer| == |ids| + 1 && longer[|ids|] == |history| && forall i :: i in ids ==> i in longer
  {
    var last: nat := |history|;
    longer := ids + [last];
    assert forall k :: 0 <= k < |ids| ==> (history + [e])[ids[k]] == history[ids[k]];
  }

  lemma HoldsDropped(history: seq<Entry>, ids: seq<nat>, entries: seq<Entry>, cut: nat)
    requires Holds(history, ids, entries) && cut <= |ids|
    ensures Holds(history, ids[cut..], entries[cut..])
  {
  }

  /** Dropping from the front of the queue drops only entries with `maxSize` additions after them. */
  lemma AccountedPushed(
      window: u32, maxSize: u32, now: int, history: seq<Entry>, e: Entry, ids: seq<nat>, longer: seq<nat>, cut: nat)
    requires Accounted(window, maxSize, now, history, ids)
    requires forall i, j :: 0 <= i < j < |longer| ==> longer[i] < longer[j]
    requires |longer| == |ids| + 1 && longer[|ids|] == |history| && forall i :: i in ids ==> i in longer
    requires cut <= |longer| && (cut > 0 ==> |longer| - cut >= maxSize)
    ensures Accounted(window, maxSize, now, history + [e], longer[cut..])
  {
    forall i | 0 <= i < |history + [e]|
      ensures i in longer[cut..] || (history + [e])[i].ts + window < now || |history + [e]| - i - 1 >= maxSize
    {
      if i in longer {
        var k :| 0 <= k < |longer| && longer[k] == i;
        if k < cut {
          IndexGap(longer, k);
        } else {
          assert longer[cut..][k - cut] == i;
        }
      } else {
        assert i < |history| && i !in ids by {
          assert longer[|ids|] in longer;
        }
      }
    }
  }

  lemma TracksPushed(window: u32, maxSize: u32, now: int, history: seq<Entry>, entries: seq<Entry>, e: Entry)
    requires Tracks(window, maxSize, now, history, entries)
    ensures Tracks(window, maxSize, now, history + [e], Pushed(entries, maxSize, e))
  {
    hide Holds, Accounted;
    var ids :| Holds(history, ids, entries) && Accounted(window, maxSize, now, history, ids);
    var longer := HoldsPushed(history, ids, entries, e);
    var cut := if |longer| > maxSize then |longer| - maxSize else 0;
    HoldsDropped(history + [e], longer, entries + [e], cut);
    AccountedPushed(window, maxSize, now, history, e, ids, longer, cut);
    TracksBy(window, maxSize, now, history + [e], Pushed(entries, maxSize, e), longer[cut..]);
  }

  /** In a strictly increasing sequence of indices, positions are no further apart than indices. */
  lemma {:induction false} IndexGap(ids: seq<nat>, k: nat)
    requires k < |ids| && forall i, j :: 0 <= i < j < |ids| ==> ids[i] < ids[j]
    ensures ids[|ids| - 1] - ids[k] >= |ids| - 1 - k
    decreases |ids| - k
  {
    if k < |ids| - 1 {
      IndexGap(ids, k + 1);
    }
  }

  /** A pair is accepted again only after `maxSize` other additions. */
  lemma AcceptedAgainAfterEviction(
      window: u32, maxSize: u32, now: i64, history: seq<Entry>, entries: seq<Entry>, e: Entry, i: nat)
    requires Tracks(window, maxSize, now, history, entries) && ClockRange(now) && e.ts != now - TWO_63
    requires Accepts(entries, window, now, e)
    requires i < |history| && history[i] == e
    ensures |history| - i - 1 >= maxSize
  {
    var ids :| Holds(history, ids, entries) && Accounted(window, maxSize, now, history, ids);
    WindowTestExact(window, now, e.ts);
    LiveExact(window, now, e);
    RetainMember(entries, window, now, e);
  }

  function PushedAll(entries: seq<Entry>, maxSize: u32, es: seq<Entry>): seq<Entry> {
    if es == [] then entries else Pushed(PushedAll(entries, maxSize, es[..|es| - 1]), maxSize, es[|es| - 1])
  }

  lemma {:induction false} PushedAllKeepsLast(maxSize: u32, es: seq<Entry>)
    ensures PushedAll([], maxSize, es) == if |es| > maxSize then es[|es| - maxSize..] else es
  {
    if es == [] {
    } else {
      PushedAllKeepsLast(maxSize, es[..|es| - 1]);
      assert es == es[..|es| - 1] + [es[|es| - 1]];
    }
  }

  /** The bound of `maxSize` additions is exact: after the additions `es`, all still timely, a timely pair is
      refused exactly when it is among the last `maxSize` of them. */
  lemma EvictionBoundIsExact(window: u32, maxSize: u32, now: i64, es: seq<Entry>, e: Entry)
    requires ClockRange(now) && Near(window, now, e.ts)
    ensures Accepts(PushedAll([], maxSize, es), window, now, e)
       <==> e !in (if |es| > maxSize then es[|es| - maxSize..] else es)
  {
    PushedAllKeepsLast(maxSize, es);
    WindowTestExact(window, now, e.ts);
    LiveExact(window, now, e);
    RetainMember(PushedAll([], maxSize, es), window, now, e);
  }

  // ---- Additions with their times ----

  /** One `replay_add`: made at time `at`, for an accepted packet or for one this side emitted itself.
      `owner` names the task or the transmission that made it. */
  datatype Addition = Addition(entry: Entry, at: i64, accepted: bool, owner: nat)

  ghost function EntriesOf(adds: seq<Addition>): (h: seq<Entry>)
    ensures |h| == |adds| && forall i :: 0 <= i < |h| ==> h[i] == adds[i].entry
  {
    seq(|adds|, i requires 0 <= i < |adds| => adds[i].entry)
  }

  /** Timestamps below this are accepted at one instant only, that of the wrapped difference. */
  predicate Ancient(ts: i64) {
    ts < -TWO_62
  }

  /** Additions come in time order, none later than `now`; no timestamp is more than the window ahead of its
      addition, and that of an accepted packet, unless ancient, no more than the window behind. This side stamps its
      own packets by the clock. */
  ghost predicate Chronicle(window: u32, now: i64, adds: seq<Addition>) {
    && (forall i :: 0 <= i < |adds| ==> adds[i].entry.ts <= adds[i].at + window)
    && (forall i :: 0 <= i < |adds| ==> 0 <= adds[i].at <= now)
    && (forall i :: 0 <= i < |adds| && adds[i].accepted ==> Dated(window, adds[i]))
    && (forall i :: 0 <= i < |adds| && !adds[i].accepted ==> 0 <= adds[i].entry.ts)
    && (forall i, j :: 0 <= i < j < |adds| ==> adds[i].at <= adds[j].at)
  }

  /** The packet was timely, or its timestamp is the wrapped one. */
  ghost predicate Dated(window: u32, a: Addition) {
    if Ancient(a.entry.ts) then a.entry.ts == a.at - TWO_63 else a.at <= a.entry.ts + window
  }

  /** At most `capacity` additions fall in any closed span of twice the window. */
  ghost predicate WithinCapacity(window: u32, capacity: nat, adds: seq<Addition>) {
    forall i, j :: 0 <= i <= j < |adds| && adds[j].at - adds[i].at <= 2 * window ==> j - i + 1 <= capacity
  }

  lemma ChronicleIsTame(window: u32, now: i64, adds: seq<Addition>)
    requires Chronicle(window, now, adds) && ClockRange(now)
    ensures Tame(EntriesOf(adds))
  {
    forall i | 0 <= i < |adds|
      ensures EntriesOf(adds)[i].ts < TWO_62 + 0x1_0000_0000
    {
      assert adds[i].entry.ts <= adds[i].at + window;
    }
  }

  /** Within capacity, whatever the queue admits was never added before. */
  lemma AdmittedIsNew(
      window: u32, maxSize: u32, now: i64, adds: seq<Addition>, entries: seq<Entry>, e: Entry, i: nat)
    requires Tracks(window, maxSize, now, EntriesOf(adds), entries)
    requires Chronicle(window, now, adds) && ClockRange(now) && e.ts != now - TWO_63
    requires WithinCapacity(window, maxSize, adds)
    requires Accepts(entries, window, now, e) && i < |adds|
    ensures adds[i].entry != e
  {
    if adds[i].entry == e {
      WindowTestExact(window, now, e.ts);
      var last := |adds| - 1;
      assert adds[last].at - adds[i].at <= 2 * window;
      AcceptedAgainAfterEviction(window, maxSize, now, EntriesOf(adds), entries, e, i);
      assert false;
    }
  }

  lemma QueuedWasAdded(
      window: u32, maxSize: u32, now: int, adds: seq<Addition>, entries: seq<Entry>, e: Entry) returns (i: nat)
    requires Tracks(window, maxSize, now, EntriesOf(adds), entries) && e in entries
    ensures i < |adds| && adds[i].entry == e
  {
    var h := EntriesOf(adds);
    var ids :| Holds(h, ids, entries) && Accounted(window, maxSize, now, h, ids);
    var k :| 0 <= k < |entries| && entries[k] == e;
    i := ids[k];
  }

  /** The wrapped timestamp is always admitted, and never timely. */
  lemma WrappedAdmitted(window: u32, now: i64, entries: seq<Entry>, e: Entry)
    requires ClockRange(now) && e.ts == now - TWO_63
    ensures Accepts(entries, window, now, e) && !Near(window, now, e.ts)
  {
    WindowTestExact(window, now, e.ts);
    RetainMember(entries, window, now, e);
    LiveExact(window, now, e);
  }

  /** Within capacity the pruned, bounded queue decides exactly as an unbounded memory of everything added, for
      every timestamp but the one at `now - 2^63`. */
  lemma QueueRefinesHistory(
      window: u32, maxSize: u32, now: i64, adds: seq<Addition>, entries: seq<Entry>, e: Entry)
    requires Tracks(window, maxSize, now, EntriesOf(adds), entries)
    requires Chronicle(window, now, adds) && ClockRange(now)
    requires WithinCapacity(window, maxSize, adds)
    ensures (Accepts(entries, window, now, e)
             <==> (Near(window, now, e.ts) && forall i :: 0 <= i < |adds| ==> adds[i].entry != e))
       <==> e.ts != now - TWO_63
  {
    hide Tracks, Chronicle, WithinCapacity, InWindow, Live, Retain, Near;
    if e.ts == now - TWO_63 {
      WrappedAdmitted(window, now, entries, e);
    } else {
      WindowTestExact(window, now, e.ts);
      RetainMember(entries, window, now, e);
      if Accepts(entries, window, now, e) {
        forall i | 0 <= i < |adds|
          ensures adds[i].entry != e
        {
          AdmittedIsNew(window, maxSize, now, adds, entries, e, i);
        }
      } else if e in entries {
        var i := QueuedWasAdded(window, maxSize, now, adds, entries, e);
      }
    }
  }

  /** A pair that is not ancient is accepted only if every earlier addition of it has `maxSize` additions in
      between. */
  ghost predicate Separated(maxSize: u32, adds: seq<Addition>) {
    forall i, j :: 0 <= i < j < |adds| && adds[j].accepted && adds[i].entry == adds[j].entry ==>
      Ancient(adds[j].entry.ts) || j - i - 1 >= maxSize
  }

  /** What every use of the window keeps, when pairs are added only after a passing check or at sending. */
  ghost predicate WindowInv(window: u32, maxSize: u32, now: i64, entries: seq<Entry>, adds: seq<Addition>) {
    && ClockRange(now)
    && Tracks(window, maxSize, now, EntriesOf(adds), entries)
    && Chronicle(window, now, adds)
    && Separated(maxSize, adds)
  }

  lemma WindowInitially(window: u32, maxSize: u32, now: i64)
    requires ClockRange(now)
    ensures WindowInv(window, maxSize, now, [], [])
  {
    TracksInitially(window, maxSize, now);
    assert EntriesOf([]) == [];
  }

  lemma WindowLater(window: u32, maxSize: u32, now: i64, later: i64, entries: seq<Entry>, adds: seq<Addition>)
    requires WindowInv(window, maxSize, now, entries, adds) && now <= later && ClockRange(later)
    ensures WindowInv(window, maxSize, later, entries, adds)
  {
    TracksLater(window, maxSize, now, later, EntriesOf(adds), entries);
  }

  lemma WindowPruned(window: u32, maxSize: u32, now: i64, entries: seq<Entry>, adds: seq<Addition>, ts: i64)
    requires WindowInv(window, maxSize, now, entries, adds)
    ensures WindowInv(window, maxSize, now, Pruned(entries, window, now, ts), adds)
  {
    ChronicleIsTame(window, now, adds);
    TracksPruned(window, maxSize, now, ts, EntriesOf(adds), entries);
  }

  lemma WindowAdd(
      window: u32, maxSize: u32, now: i64, entries: seq<Entry>, adds: seq<Addition>,
      e: Entry, accepted: bool, owner: nat, kept: seq<Entry>)
    requires WindowInv(window, maxSize, now, entries, adds)
    requires Tracks(window, maxSize, now, EntriesOf(adds), kept)
    requires if accepted then Accepts(entries, window, now, e) else 0 <= e.ts <= now + window
    ensures WindowInv(window, maxSize, now, Pushed(kept, maxSize, e), adds + [Addition(e, now, accepted, owner)])
  {
    hide Tracks, Pushed, Retain, Live;
    var added := adds + [Addition(e, now, accepted, owner)];
    TracksPushed(window, maxSize, now, EntriesOf(adds), kept, e);
    assert EntriesOf(added) == EntriesOf(adds) + [e];
    WindowTestExact(window, now, e.ts);
    assert Chronicle(window, now, added);
    forall i, j | 0 <= i < j < |added| && added[j].accepted && added[i].entry == added[j].entry
      ensures Ancient(added[j].entry.ts) || j - i - 1 >= maxSize
    {
      if j == |adds| && !Ancient(e.ts) {
        AcceptedAgainAfterEviction(window, maxSize, now, EntriesOf(adds), entries, e, i);
      }
    }
  }
}
