/** Sliding-window restart intensity: what the timestamp deque holds and how many restarts it grants.
    Times are ticks since the earliest representable instant, so the subtraction can underflow. */
module RestartIntensity {

  predicate Sorted(ts: seq<nat>) { forall i, j :: 0 <= i < j < |ts| ==> ts[i] <= ts[j] }

  /** `now - window`, or `now` itself when that instant cannot be represented. */
  function Cutoff(now: nat, window: nat): nat { if now >= window then now - window else now }

  function Evict(ts: seq<nat>, cutoff: nat): seq<nat> {
    if ts != [] && ts[0] < cutoff then Evict(ts[1..], cutoff) else ts
  }

  function Record(ts: seq<nat>, now: nat, window: nat): seq<nat> { Evict(ts + [now], Cutoff(now, window)) }

  class RestartIntensity {
    const maxRestarts: nat
    const window: nat
    var timestamps: seq<nat>

    constructor (maxRestarts: nat, window: nat)
      ensures timestamps == [] && this.maxRestarts == maxRestarts && this.window == window
    {
      this.maxRestarts, this.window := maxRestarts, window;
      timestamps := [];
    }

    /** True when the restart exceeds the intensity. */
    method RecordRestartAt(now: nat) returns (exceeded: bool)
      modifies this
      ensures timestamps == Record(old(timestamps), now, window)
      ensures exceeded == (|timestamps| > maxRestarts)
    {
      timestamps := timestamps + [now];
      var cutoff := Cutoff(now, window);
      while timestamps != [] && timestamps[0] < cutoff
        invariant Evict(timestamps, cutoff) == Record(old(timestamps), now, window)
        decreases |timestamps|
      {
        timestamps := timestamps[1..];
      }
      exceeded := |timestamps| > maxRestarts;
    }
  }

  // ---------- whole histories ----------

  /** The deque after a history of recorded restarts. */
  function Deque(times: seq<nat>, window: nat): seq<nat> {
    if times == [] then [] else
    var n := |times| - 1;
    Record(Deque(times[..n], window), times[n], window)
  }

  /** The restart at position `i` did not exceed the intensity. */
  predicate Granted(times: seq<nat>, max: nat, window: nat, i: nat)
    requires i < |times|
  {
    |Deque(times[..i + 1], window)| <= max
  }

  /** Restarts granted in the closed interval of one window length that starts at `a`. */
  function GrantsIn(times: seq<nat>, max: nat, window: nat, a: nat): set<nat> {
    set i | 0 <= i < |times| && Granted(times, max, window, i) && a <= times[i] <= a + window
  }

  lemma {:induction false} EvictSuffix(ts: seq<nat>, cutoff: nat) returns (k: nat)
    ensures k <= |ts| && Evict(ts, cutoff) == ts[k..]
    ensures (forall i :: 0 <= i < k ==> ts[i] < cutoff) && (k < |ts| ==> ts[k] >= cutoff)
  {
    if ts != [] && ts[0] < cutoff {
      var k' := EvictSuffix(ts[1..], cutoff);
      k := k' + 1;
      assert ts[1..][k'..] == ts[k..];
      assert forall i :: 0 < i < k ==> ts[i] == ts[1..][i - 1];
    } else {
      k := 0;
    }
  }

  /** While no subtraction underflows in a way that matters, the deque is the history filtered to
      the window: exactly the recorded restarts at most `window` before the last one. */
  lemma {:induction false} DequeIsWindow(times: seq<nat>, window: nat) returns (k: nat)
    requires times != [] && Sorted(times) && times[0] + 1 >= window
    ensures k < |times| && Deque(times, window) == times[k..]
    ensures forall j :: 0 <= j < |times| ==> (j >= k <==> times[j] + window >= times[|times| - 1])
  {
    hide Deque, Evict, Cutoff;
    var n := |times| - 1;
    var k0 := 0;
    if n > 0 {
      assert times[..n][0] == times[0];
      k0 := DequeIsWindow(times[..n], window);
    } else {
      NoHistory(window);
    }
    var k1 := DequeStep(times, window, k0);
    k := k0 + k1;
    forall j | 0 <= j < |times| ensures j >= k <==> times[j] + window >= times[n] {
      if j < k0 {
        assert times[..n][j] + window < times[..n][n - 1];
      } else {
        WindowStep(times, window, k0, k1, j);
      }
    }
    assert n >= k;
  }

  lemma NoHistory(window: nat)
    ensures Deque([], window) == []
  {
  }

  /** If the deque was a suffix of the history so far, it is one of the longer history. */
  lemma DequeStep(times: seq<nat>, window: nat, k0: nat) returns (k1: nat)
    requires times != [] && k0 < |times| && Deque(times[..|times| - 1], window) == times[..|times| - 1][k0..]
    ensures var ts, cutoff := times[k0..], Cutoff(times[|times| - 1], window);
            && k1 <= |ts| && Deque(times, window) == times[k0 + k1..]
            && (forall i :: 0 <= i < k1 ==> ts[i] < cutoff) && (k1 < |ts| ==> ts[k1] >= cutoff)
  {
    hide Evict, Cutoff;
    var n := |times| - 1;
    var ts := times[k0..];
    assert times[..n][k0..] + [times[n]] == ts;
    k1 := EvictSuffix(ts, Cutoff(times[n], window));
    assert ts[k1..] == times[k0 + k1..];
  }

  /** One eviction decides membership in the window. */
  lemma WindowStep(times: seq<nat>, window: nat, k0: nat, k1: nat, j: nat)
    requires times != [] && Sorted(times) && times[0] + 1 >= window && k0 <= j < |times|
    requires var ts, cutoff := times[k0..], Cutoff(times[|times| - 1], window);
             k1 <= |ts| && (forall i :: 0 <= i < k1 ==> ts[i] < cutoff) && (k1 < |ts| ==> ts[k1] >= cutoff)
    ensures j >= k0 + k1 <==> times[j] + window >= times[|times| - 1]
  {
    var ts := times[k0..];
    assert ts[j - k0] == times[j];
    if k0 + k1 <= j { assert ts[k1] == times[k0 + k1] <= times[j]; }
  }

  /** Without underflow every interval of window length holds at most `max` granted restarts. */
  lemma GrantsBounded(times: seq<nat>, max: nat, window: nat, a: nat)
    requires Sorted(times) && (times != [] ==> times[0] + 1 >= window)
    ensures |GrantsIn(times, max, window, a)| <= max
  {
    var G := GrantsIn(times, max, window, a);
    if G != {} {
      var i := Greatest(G);
      var prefix := times[..i + 1];
      var k := DequeIsWindow(prefix, window);
      assert Granted(times, max, window, i) && |prefix[k..]| <= max;
      forall j | j in G ensures k <= j <= i {
        assert prefix[j] == times[j] && prefix[i] == times[i];
      }
      IntervalBound(G, k, i);
    }
  }

  lemma Greatest(s: set<nat>) returns (m: nat)
    requires s != {}
    ensures m in s && forall x :: x in s ==> x <= m
  {
    m :| m in s;
    if s != {m} {
      var m' := Greatest(s - {m});
      assert forall x :: x in s ==> x == m || x in s - {m};
      if m' > m { m := m'; }
    }
  }

  lemma IntervalBound(s: set<nat>, lo: nat, hi: nat)
    requires forall x :: x in s ==> lo <= x <= hi
    requires lo <= hi
    ensures |s| <= hi + 1 - lo
    decreases hi - lo
  {
    if lo < hi {
      assert forall x :: x in s - {hi} ==> lo <= x <= hi - 1;
      IntervalBound(s - {hi}, lo, hi - 1);
    } else {
      assert s <= {lo};
      if s != {} { assert s == {lo}; }
    }
  }

  // ---------- when the subtraction underflows ----------

  /** `n` restarts at one instant. */
  function Burst(t: nat, n: nat): seq<nat> { seq(n, i => t) }

  /** Below the window only ties survive, so a burst forgets everything before it. */
  lemma {:induction false} BurstDeque(before: seq<nat>, t: nat, n: nat, window: nat)
    requires t < window && n > 0 && forall x :: x in Deque(before, window) ==> x < t
    ensures Deque(before + Burst(t, n), window) == Burst(t, n)
    decreases n
  {
    var all := before + Burst(t, n);
    assert all[..|all| - 1] == before + Burst(t, n - 1);
    if n == 1 {
      assert before + Burst(t, 0) == before;
      var ts := Deque(before, window) + [t];
      var k := EvictSuffix(ts, t);
      assert ts[|ts| - 1] == t;
      assert forall i :: 0 <= i < |ts| - 1 ==> ts[i] in Deque(before, window);
      assert ts[k..] == [t] == Burst(t, 1);
    } else {
      BurstDeque(before, t, n - 1, window);
      var ts := Burst(t, n - 1) + [t];
      assert ts == Burst(t, n);
    }
  }

  lemma BurstsGranted(max: nat, window: nat, t: nat, i: nat)
    requires max >= 1 && t + 1 < window && i < 2 * max
    ensures Granted(Burst(t, max) + Burst(t + 1, max), max, window, i)
  {
    hide Deque;
    var times := Burst(t, max) + Burst(t + 1, max);
    NoHistory(window);
    if i < max {
      assert times[..i + 1] == [] + Burst(t, i + 1);
      BurstDeque([], t, i + 1, window);
    } else {
      BurstDeque([], t, max, window);
      assert [] + Burst(t, max) == Burst(t, max);
      assert times[..i + 1] == Burst(t, max) + Burst(t + 1, i + 1 - max);
      BurstDeque(Burst(t, max), t + 1, i + 1 - max, window);
    }
  }

  /** Two bursts at neighbouring instants, both granted in full. */
  lemma UnderflowGrantsTwice(max: nat, window: nat, t: nat)
    requires max >= 1 && t + 1 < window
    ensures var times := Burst(t, max) + Burst(t + 1, max);
            Sorted(times) && times[0] == t && |GrantsIn(times, max, window, t)| == 2 * max
  {
    var times := Burst(t, max) + Burst(t + 1, max);
    hide Granted;
    forall i | 0 <= i < 2 * max ensures Granted(times, max, window, i) { BurstsGranted(max, window, t, i); }
    AllBelow(2 * max);
    assert GrantsIn(times, max, window, t) == Below(2 * max);
  }

  function Below(n: nat): set<nat> { if n == 0 then {} else Below(n - 1) + {n - 1} }

  lemma {:induction false} AllBelow(n: nat)
    ensures |Below(n)| == n && forall i: nat :: i in Below(n) <==> i < n
  {
    if n > 0 { AllBelow(n - 1); }
  }

  /** The documented bound, for every history from `t0` on, holds exactly when nothing is ever
      granted or the clock starts (almost) one window after the earliest representable instant. */
  lemma BoundExactly(max: nat, window: nat, t0: nat)
    ensures (forall times: seq<nat>, a: nat :: Sorted(times) && (times != [] ==> times[0] >= t0) ==>
               |GrantsIn(times, max, window, a)| <= max)
            <==> max == 0 || t0 + 1 >= window
  {
    if max == 0 {
      forall times: seq<nat>, a: nat ensures |GrantsIn(times, 0, window, a)| <= 0 {
        forall i | 0 <= i < |times| ensures !Granted(times, 0, window, i) {
          NeverEmpty(times[..i + 1], window);
        }
        assert GrantsIn(times, 0, window, a) == {};
      }
    } else if t0 + 1 >= window {
      forall times: seq<nat>, a: nat | Sorted(times) && (times != [] ==> times[0] >= t0)
        ensures |GrantsIn(times, max, window, a)| <= max
      {
        GrantsBounded(times, max, window, a);
      }
    } else {
      UnderflowGrantsTwice(max, window, t0);
      var times := Burst(t0, max) + Burst(t0 + 1, max);
      assert |GrantsIn(times, max, window, t0)| > max;
    }
  }

  lemma NeverEmpty(times: seq<nat>, window: nat)
    requires times != []
    ensures Deque(times, window) != []
  {
    var n := |times| - 1;
    var ts := Deque(times[..n], window) + [times[n]];
    var k := EvictSuffix(ts, Cutoff(times[n], window));
    assert ts[|ts| - 1] >= Cutoff(times[n], window);
  }
}
