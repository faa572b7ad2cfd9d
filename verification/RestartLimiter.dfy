/** The restart limiter inside `ProcessManager::HandleExit`: at most `limit` restarts per window. */
module RestartLimiters {

  /** Drops the grants that have left the window. */
  function Pruned(times: seq<int>, now: int, window: nat): (r: seq<int>)
    ensures |r| <= |times|
  {
    if times != [] && now - times[0] > window then Pruned(times[1..], now, window) else times
  }

  /** One exit: the grants that are remembered, and whether a restart is granted. */
  function OnExit(times: seq<int>, now: int, window: nat, limit: nat): (seq<int>, bool) {
    var kept := Pruned(times, now, window);
    if |kept| >= limit then (kept, false) else (kept + [now], true)
  }

  // ---------------------------------------------------------------- a run of exits

  /** What is remembered after the exits, one after the other. */
  function Remembered(exits: seq<int>, window: nat, limit: nat): seq<int> {
    if exits == [] then []
    else OnExit(Remembered(exits[..|exits| - 1], window, limit), exits[|exits| - 1], window, limit).0
  }

  /** Every restart that was granted. */
  function Granted(exits: seq<int>, window: nat, limit: nat): seq<int> {
    if exits == [] then []
    else
      var before := Granted(exits[..|exits| - 1], window, limit);
      var now := exits[|exits| - 1];
      if OnExit(Remembered(exits[..|exits| - 1], window, limit), now, window, limit).1 then before + [now] else before
  }

  predicate Sorted(times: seq<int>) {
    forall i, j | 0 <= i <= j < |times| :: times[i] <= times[j]
  }

  /** How many of the times lie in the closed interval. */
  function CountIn(times: seq<int>, low: int, high: int): (n: nat)
    ensures n <= |times|
  {
    if times == [] then 0
    else CountIn(times[..|times| - 1], low, high) + if low <= times[|times| - 1] <= high then 1 else 0
  }

  // ---------------------------------------------------------------- what is remembered is enough

  /** The remembered times are the grants that have not left the window of the last exit. */
  ghost predicate Remembers(granted: seq<int>, kept: seq<int>, now: int, window: nat) {
    && |kept| <= |granted| && kept == granted[|granted| - |kept|..]
    && (forall i | 0 <= i < |granted| - |kept| :: now - granted[i] > window)
    && Sorted(granted) && (forall i | 0 <= i < |granted| :: granted[i] <= now)
  }

  lemma {:induction false} PrunedIsSuffix(times: seq<int>, now: int, window: nat)
    ensures Pruned(times, now, window) == times[|times| - |Pruned(times, now, window)|..]
    decreases |times|
  {
    if times != [] && now - times[0] > window {
      PrunedIsSuffix(times[1..], now, window);
    }
  }

  lemma {:induction false} PrunedIsFresh(times: seq<int>, now: int, window: nat)
    requires Sorted(times)
    ensures forall t | t in Pruned(times, now, window) :: now - t <= window
    decreases |times|
  {
    if times != [] && now - times[0] > window {
      PrunedIsFresh(times[1..], now, window);
    } else {
      forall t | t in times ensures now - t <= window {
        var i :| 0 <= i < |times| && times[i] == t;
        assert times[0] <= times[i];
      }
    }
  }

  lemma {:induction false} DroppedIsStale(times: seq<int>, now: int, window: nat)
    ensures forall i | 0 <= i < |times| - |Pruned(times, now, window)| :: now - times[i] > window
    decreases |times|
  {
    if times != [] && now - times[0] > window {
      DroppedIsStale(times[1..], now, window);
      forall i | 0 < i < |times| - |Pruned(times, now, window)| ensures now - times[i] > window {
        assert times[i] == times[1..][i - 1];
      }
    }
  }

  lemma {:induction false} PruneKeepsMemory(granted: seq<int>, kept: seq<int>, now: int, later: int, window: nat)
    requires Remembers(granted, kept, now, window) && now <= later
    ensures Remembers(granted, Pruned(kept, later, window), later, window)
    ensures forall t | t in Pruned(kept, later, window) :: later - t <= window
  {
    var d := |granted| - |kept|;
    forall i, j | 0 <= i <= j < |kept| ensures kept[i] <= kept[j] {
      assert kept[i] == granted[d + i] && kept[j] == granted[d + j];
    }
    PrunedIsFresh(kept, later, window);
    PrunedIsSuffix(kept, later, window);
    var r := Pruned(kept, later, window);
    forall i | 0 <= i < |granted| - |r| ensures later - granted[i] > window {
      if i >= d {
        DroppedIsStale(kept, later, window);
        assert granted[i] == kept[i - d];
      }
    }
  }

  lemma {:induction false} AppendKeepsMemory(granted: seq<int>, kept: seq<int>, now: int, window: nat)
    requires Remembers(granted, kept, now, window)
    ensures Remembers(granted + [now], kept + [now], now, window)
  {
    var g, k := granted + [now], kept + [now];
    assert k == g[|g| - |k|..];
  }

  lemma {:induction false} ExitKeepsMemory(granted: seq<int>, kept: seq<int>, now: int, later: int, window: nat, limit: nat)
    requires Remembers(granted, kept, now, window) && now <= later
    ensures var (next, ok) := OnExit(kept, later, window, limit);
      Remembers(if ok then granted + [later] else granted, next, later, window)
  {
    PruneKeepsMemory(granted, kept, now, later, window);
    AppendKeepsMemory(granted, Pruned(kept, later, window), later, window);
  }

  lemma {:induction false} MemoryHolds(exits: seq<int>, window: nat, limit: nat)
    requires exits != [] && Sorted(exits)
    ensures Remembers(Granted(exits, window, limit), Remembered(exits, window, limit), exits[|exits| - 1], window)
  {
    var n := |exits| - 1;
    var init := exits[..n];
    if n > 0 {
      MemoryHolds(init, window, limit);
    }
    ExitKeepsMemory(Granted(init, window, limit), Remembered(init, window, limit),
                    if n > 0 then init[n - 1] else exits[n], exits[n], window, limit);
  }

  // ---------------------------------------------------------------- counting

  lemma {:induction false} CountNone(times: seq<int>, low: int, high: int)
    requires forall i | 0 <= i < |times| :: times[i] < low
    ensures CountIn(times, low, high) == 0
  {
    if times != [] {
      CountNone(times[..|times| - 1], low, high);
    }
  }

  lemma {:induction false} CountAll(times: seq<int>, low: int, high: int)
    requires forall i | 0 <= i < |times| :: low <= times[i] <= high
    ensures CountIn(times, low, high) == |times|
  {
    if times != [] {
      CountAll(times[..|times| - 1], low, high);
    }
  }

  lemma {:induction false} CountConcat(a: seq<int>, b: seq<int>, low: int, high: int)
    ensures CountIn(a + b, low, high) == CountIn(a, low, high) + CountIn(b, low, high)
    decreases |b|
  {
    if b == [] {
      assert a + b == a;
    } else {
      CountConcat(a, b[..|b| - 1], low, high);
      assert (a + b)[..|a + b| - 1] == a + b[..|b| - 1];
    }
  }

  lemma {:induction false} CountTail(times: seq<int>, d: nat, low: int, high: int)
    requires d <= |times| && forall i | 0 <= i < d :: times[i] < low
    ensures CountIn(times, low, high) == CountIn(times[d..], low, high)
  {
    CountNone(times[..d], low, high);
    CountConcat(times[..d], times[d..], low, high);
    assert times[..d] + times[d..] == times;
  }

  /** What pruning leaves is what the window holds. */
  lemma {:induction false} MemoryCounts(granted: seq<int>, kept: seq<int>, now: int, window: nat)
    requires Remembers(granted, kept, now, window)
    requires forall t | t in kept :: now - t <= window
    ensures |kept| == CountIn(granted, now - window, now)
  {
    var d := |granted| - |kept|;
    CountTail(granted, d, now - window, now);
    forall i | 0 <= i < |kept| ensures now - window <= kept[i] <= now {
      assert kept[i] == granted[d + i] && kept[i] in kept;
    }
    CountAll(kept, now - window, now);
  }

  // ---------------------------------------------------------------- the two directions

  /** An exit is refused a restart if and only if the closed window that ends with it already holds
      the limit of granted restarts. */
  lemma {:induction false} RefusedIffFull(exits: seq<int>, now: int, window: nat, limit: nat)
    requires Sorted(exits + [now])
    ensures !OnExit(Remembered(exits, window, limit), now, window, limit).1
       <==> CountIn(Granted(exits, window, limit), now - window, now) >= limit
  {
    var all := exits + [now];
    assert all[|exits|] == now;
    var granted, kept := Granted(exits, window, limit), Remembered(exits, window, limit);
    if exits == [] {
      assert Pruned(kept, now, window) == [] && granted == [];
    } else {
      assert forall i | 0 <= i < |exits| :: all[i] == exits[i];
      MemoryHolds(exits, window, limit);
      PruneKeepsMemory(granted, kept, exits[|exits| - 1], now, window);
      MemoryCounts(granted, Pruned(kept, now, window), now, window);
    }
  }

  lemma {:induction false} OneMoreExit(exits: seq<int>, now: int, window: nat, limit: nat)
    ensures var (kept, ok) := OnExit(Remembered(exits, window, limit), now, window, limit);
      && Remembered(exits + [now], window, limit) == kept
      && Granted(exits + [now], window, limit) == Granted(exits, window, limit) + if ok then [now] else []
  {
    assert (exits + [now])[..|exits|] == exits;
  }

  /** Grants `limit` or more places apart are more than a window apart. */
  predicate Spread(granted: seq<int>, window: nat, limit: nat) {
    forall i, j | 0 <= i <= j < |granted| && j - i >= limit :: granted[j] - granted[i] > window
  }

  lemma {:induction false} GrantsAreSpread(exits: seq<int>, window: nat, limit: nat)
    requires Sorted(exits)
    ensures Spread(Granted(exits, window, limit), window, limit) && Sorted(Granted(exits, window, limit))
  {
    if exits != [] {
      var n := |exits| - 1;
      var init, now := exits[..n], exits[n];
      GrantsAreSpread(init, window, limit);
      MemoryHolds(exits, window, limit);
      var granted, kept := Granted(init, window, limit), Remembered(init, window, limit);
      var r := Pruned(kept, now, window);
      if |r| < limit {
        if n > 0 {
          MemoryHolds(init, window, limit);
          PruneKeepsMemory(granted, kept, init[n - 1], now, window);
        } else {
          assert granted == [] && r == [];
        }
        GrantSpreads(granted, r, now, window, limit);
      }
    }
  }

  lemma {:induction false} GrantSpreads(granted: seq<int>, kept: seq<int>, now: int, window: nat, limit: nat)
    requires Spread(granted, window, limit) && Remembers(granted, kept, now, window) && |kept| < limit
    ensures Spread(granted + [now], window, limit)
  {
    var g := granted + [now];
    forall i, j | 0 <= i <= j < |g| && j - i >= limit ensures g[j] - g[i] > window {
      if j < |granted| {
        assert g[j] == granted[j] && g[i] == granted[i];
      } else {
        assert i < |granted| - |kept| && g[i] == granted[i];
      }
    }
  }

  /** No closed window holds more granted restarts than the limit. */
  lemma {:induction false} WindowNeverOverfull(exits: seq<int>, window: nat, limit: nat, start: int)
    requires Sorted(exits)
    ensures CountIn(Granted(exits, window, limit), start, start + window) <= limit
  {
    GrantsAreSpread(exits, window, limit);
    SpreadCounts(Granted(exits, window, limit), window, limit, start);
  }

  lemma {:induction false} SpreadCounts(granted: seq<int>, window: nat, limit: nat, start: int)
    requires Spread(granted, window, limit) && Sorted(granted)
    ensures CountIn(granted, start, start + window) <= limit
    decreases |granted|
  {
    var n := |granted|;
    if n > limit {
      if start <= granted[n - 1] <= start + window {
        FullWindowCounts(granted, window, limit, start);
      } else {
        SpreadPrefix(granted, window, limit);
        SpreadCounts(granted[..n - 1], window, limit, start);
      }
    }
  }

  lemma {:induction false} SpreadPrefix(granted: seq<int>, window: nat, limit: nat)
    requires Spread(granted, window, limit) && Sorted(granted) && granted != []
    ensures Spread(granted[..|granted| - 1], window, limit) && Sorted(granted[..|granted| - 1])
  {
  }

  /** If the last grant is in the window, all but the last `limit` of them are too early for it. */
  lemma {:induction false} FullWindowCounts(granted: seq<int>, window: nat, limit: nat, start: int)
    requires Spread(granted, window, limit) && Sorted(granted) && |granted| > limit
    requires granted[|granted| - 1] <= start + window
    ensures CountIn(granted, start, start + window) <= limit
  {
    var k := |granted| - 1 - limit;
    assert granted[|granted| - 1] - granted[k] > window;
    CountTail(granted, k + 1, start, start + window);
  }
}
