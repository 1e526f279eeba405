/** The fixed-window request limiter: the table implementation, the Redis implementation,
    and what one host sees of either over a trace of calls from many hosts. */
module Ratelimit {
  import opened Wrappers

  datatype Row = Row(windowStart: int, requests: nat)

  datatype Call = Call(host: string, now: int)

  type Rows = map<string, Row>

  /** Calls arrive in the order of a clock that never goes back. */
  predicate Ordered(calls: seq<Call>)
  {
    forall i, j | 0 <= i < j < |calls| :: calls[i].now <= calls[j].now
  }

  // ---------------------------------------------------------------------------
  // The table implementation

  /** Rows of every host whose window has ended are deleted first. */
  function Purge(rows: Rows, timeToDelete: int): Rows
  {
    map h | h in rows && rows[h].windowStart >= timeToDelete :: rows[h]
  }

  function DbStep(rows: Rows, window: nat, call: Call): Rows
  {
    var kept := Purge(rows, call.now - window);
    var row := if call.host in kept then kept[call.host] else Row(call.now, 0);
    kept[call.host := row.(requests := row.requests + 1)]
  }

  function DbRun(window: nat, calls: seq<Call>): (rows: Rows)
    ensures calls != [] ==> calls[|calls| - 1].host in rows
  {
    if calls == [] then map[] else DbStep(DbRun(window, calls[..|calls| - 1]), window, calls[|calls| - 1])
  }

  /** Is the last call of the trace turned away? */
  predicate DbExceeds(window: nat, limit: nat, calls: seq<Call>)
    requires calls != []
  {
    DbRun(window, calls)[calls[|calls| - 1].host].requests > limit
  }

  class DbLimiter {
    var rows: Rows

    constructor ()
      ensures rows == map[]
    {
      rows := map[];
    }

    /** `_update_ratelimit_db` followed by the comparison of `check_ratelimit`. */
    method Check(call: Call, window: nat, limit: nat) returns (exceeded: bool)
      modifies this
      ensures rows == DbStep(old(rows), window, call)
      ensures exceeded <==> rows[call.host].requests > limit
    {
      var timeToDelete := call.now - window;
      ghost var start := rows;
      var expired := set h | h in rows && rows[h].windowStart < timeToDelete;
      while expired != {}
        invariant expired == set h | h in rows && rows[h].windowStart < timeToDelete
        invariant rows == map h | h in start && (h in expired || start[h].windowStart >= timeToDelete) :: start[h]
        decreases expired
      {
        var h :| h in expired;
        rows := rows - {h};
        expired := expired - {h};
      }
      assert rows == Purge(start, timeToDelete);
      if call.host !in rows {
        rows := rows[call.host := Row(call.now, 1)];
      } else {
        rows := rows[call.host := rows[call.host].(requests := rows[call.host].requests + 1)];
      }
      exceeded := rows[call.host].requests > limit;
    }
  }

  // ---------------------------------------------------------------------------
  // What one host sees

  /** The window and count of `host`, computed from its own calls alone: a window lasts
      until a call comes more than `window` after its start. */
  function HostRow(window: nat, calls: seq<Call>, host: string): Option<Row>
  {
    if calls == [] then None
    else
      var before, last := HostRow(window, calls[..|calls| - 1], host), calls[|calls| - 1];
      if last.host != host then before
      else if before.None? || before.value.windowStart < last.now - window then Some(Row(last.now, 1))
      else Some(before.value.(requests := before.value.requests + 1))
  }

  /** The table holds the host's row, or has purged it after its window ended. */
  lemma {:induction false} DbTracksHost(window: nat, calls: seq<Call>, host: string)
    requires Ordered(calls)
    ensures var rows, own := DbRun(window, calls), HostRow(window, calls, host);
            && (host in rows ==> own == Some(rows[host]))
            && (host !in rows && own.Some? ==> calls != [] && own.value.windowStart < calls[|calls| - 1].now - window)
  {
    if calls != [] {
      DbTracksHost(window, calls[..|calls| - 1], host);
    }
  }

  lemma LastCallTracked(window: nat, calls: seq<Call>)
    requires Ordered(calls) && calls != []
    ensures HostRow(window, calls, calls[|calls| - 1].host) == Some(DbRun(window, calls)[calls[|calls| - 1].host])
  {
    DbTracksHost(window, calls, calls[|calls| - 1].host);
  }

  function CallsOf(calls: seq<Call>, host: string): seq<Call>
  {
    if calls == [] then []
    else CallsOf(calls[..|calls| - 1], host) + if calls[|calls| - 1].host == host then [calls[|calls| - 1]] else []
  }

  lemma {:induction false} HostRowIsLocal(window: nat, calls: seq<Call>, host: string)
    ensures HostRow(window, calls, host) == HostRow(window, CallsOf(calls, host), host)
  {
    if calls != [] {
      var init, last := calls[..|calls| - 1], calls[|calls| - 1];
      HostRowIsLocal(window, init, host);
      var own := CallsOf(init, host);
      if last.host == host {
        assert CallsOf(calls, host) == own + [last];
        assert (own + [last])[..|own|] == own;
      } else {
        assert CallsOf(calls, host) == own;
      }
    }
  }

  /** Other hosts' calls, and the purges they cause, never change a host's verdict. */
  lemma OtherHostsDoNotMatter(window: nat, limit: nat, a: seq<Call>, b: seq<Call>)
    requires Ordered(a) && Ordered(b) && a != [] && b != []
    requires var host := a[|a| - 1].host; b[|b| - 1].host == host && CallsOf(a, host) == CallsOf(b, host)
    ensures DbExceeds(window, limit, a) <==> DbExceeds(window, limit, b)
  {
    LastCallTracked(window, a);
    LastCallTracked(window, b);
    HostRowIsLocal(window, a, a[|a| - 1].host);
    HostRowIsLocal(window, b, a[|a| - 1].host);
  }

  // ---------------------------------------------------------------------------
  // Windows

  /** The row of its host as the k-th call leaves it. */
  function RowAt(window: nat, calls: seq<Call>, k: nat): (r: Row)
    requires k < |calls|
  {
    HostRow(window, calls[..k + 1], calls[k].host).value
  }

  predicate Allowed(window: nat, limit: nat, calls: seq<Call>, k: nat)
    requires k < |calls|
  {
    !DbExceeds(window, limit, calls[..k + 1])
  }

  lemma AllowedIff(window: nat, limit: nat, calls: seq<Call>, k: nat)
    requires Ordered(calls) && k < |calls|
    ensures Allowed(window, limit, calls, k) <==> RowAt(window, calls, k).requests <= limit
  {
    LastCallTracked(window, calls[..k + 1]);
  }

  /** The calls of `host` that fall into the window starting at `start`. */
  function Members(window: nat, calls: seq<Call>, host: string, start: int): set<nat>
  {
    set k | 0 <= k < |calls| && calls[k].host == host && RowAt(window, calls, k).windowStart == start
  }

  lemma MembersSnoc(window: nat, calls: seq<Call>, host: string, start: int)
    requires calls != []
    ensures var n := |calls| - 1;
            Members(window, calls, host, start) == Members(window, calls[..n], host, start)
              + if calls[n].host == host && RowAt(window, calls, n).windowStart == start then {n} else {}
  {
    var n := |calls| - 1;
    assert calls[..n + 1] == calls;
    forall k | 0 <= k < n ensures RowAt(window, calls[..n], k) == RowAt(window, calls, k) {
      assert calls[..n][..k + 1] == calls[..k + 1];
    }
  }

  /** A host's row counts the calls of its current window; no call lies in a later one. */
  lemma {:induction false} RowCountsWindow(window: nat, calls: seq<Call>, host: string)
    requires Ordered(calls)
    ensures var own := HostRow(window, calls, host);
            && (own.Some? ==> own.value.requests == |Members(window, calls, host, own.value.windowStart)|)
            && (own.Some? ==> calls != [] && own.value.windowStart <= calls[|calls| - 1].now)
            && (forall start | own.None? || own.value.windowStart < start :: Members(window, calls, host, start) == {})
  {
    if calls != [] {
      var n := |calls| - 1;
      RowCountsWindow(window, calls[..n], host);
      assert calls[..n + 1] == calls;
      var own := HostRow(window, calls, host);
      if own.Some? {
        MembersSnoc(window, calls, host, own.value.windowStart);
      }
      forall start | own.None? || own.value.windowStart < start ensures Members(window, calls, host, start) == {} {
        MembersSnoc(window, calls, host, start);
      }
    }
  }

  /** Each window lets through exactly its first `limit` calls: a call is allowed when it
      and the calls of its host before it in the same window are at most `limit`. */
  lemma FirstCallsAllowed(window: nat, limit: nat, calls: seq<Call>, k: nat)
    requires Ordered(calls) && k < |calls|
    ensures Allowed(window, limit, calls, k) <==>
              |Members(window, calls[..k + 1], calls[k].host, RowAt(window, calls, k).windowStart)| <= limit
  {
    AllowedIff(window, limit, calls, k);
    RowCountsWindow(window, calls[..k + 1], calls[k].host);
    assert calls[..k + 1][..k] == calls[..k];
  }

  /** A call lies within its window, and a later window starts after the earlier one ended. */
  lemma {:induction false} WindowsApart(window: nat, calls: seq<Call>, j: nat, k: nat)
    requires Ordered(calls) && j <= k < |calls| && calls[j].host == calls[k].host
    ensures var a, b := RowAt(window, calls, j).windowStart, RowAt(window, calls, k).windowStart;
            && (a == b || a + window < b)
            && b <= calls[k].now <= b + window
  {
    WindowsApartPrefix(window, calls, calls[j].host, j, k + 1);
  }

  lemma {:induction false} WindowsApartPrefix(window: nat, calls: seq<Call>, host: string, j: nat, n: nat)
    requires Ordered(calls) && j < n <= |calls| && calls[j].host == host
    ensures var own := HostRow(window, calls[..n], host);
            && own.Some?
            && (var a, b := RowAt(window, calls, j).windowStart, own.value.windowStart; a == b || a + window < b)
            && own.value.windowStart <= calls[n - 1].now
            && (calls[n - 1].host == host ==> calls[n - 1].now <= own.value.windowStart + window)
  {
    assert calls[..n][..n - 1] == calls[..n - 1];
    if j + 1 < n {
      WindowsApartPrefix(window, calls, host, j, n - 1);
    } else {
      RowCountsWindow(window, calls[..n - 1], host);
    }
  }

  lemma {:induction false} Greatest(s: set<nat>) returns (m: nat)
    requires s != {}
    ensures m in s && forall k | k in s :: k <= m
  {
    var x :| x in s;
    var rest := s - {x};
    if rest == {} {
      assert s == {x};
      m := x;
    } else {
      var y := Greatest(rest);
      m := if y > x then y else x;
      assert forall k | k in s :: k == x || k in rest;
    }
  }

  lemma SubsetSize<T>(a: set<T>, b: set<T>)
    requires a <= b
    ensures |a| <= |b|
  {
    assert b == a + (b - a);
  }

  /** Allowed calls of one window are at most `limit`. */
  lemma AllowedPerWindow(window: nat, limit: nat, calls: seq<Call>, host: string, start: int, s: set<nat>)
    requires Ordered(calls)
    requires forall k | k in s :: k < |calls| && calls[k].host == host
                               && RowAt(window, calls, k).windowStart == start && Allowed(window, limit, calls, k)
    ensures |s| <= limit
  {
    if s != {} {
      var m := Greatest(s);
      FirstCallsAllowed(window, limit, calls, m);
      var prefix := calls[..m + 1];
      forall k | k in s ensures k in Members(window, prefix, host, start) {
        assert prefix[..k + 1] == calls[..k + 1];
      }
      SubsetSize(s, Members(window, prefix, host, start));
    }
  }

  /** The allowed calls of `host` in the closed interval from `t` to `t + window`. */
  function AllowedIn(window: nat, limit: nat, calls: seq<Call>, host: string, t: int): set<nat>
  {
    set k | 0 <= k < |calls| && calls[k].host == host && t <= calls[k].now <= t + window
         && Allowed(window, limit, calls, k)
  }

  /** Any interval one window long sees at most two windows, hence at most twice the limit. */
  lemma AtMostTwiceTheLimit(window: nat, limit: nat, calls: seq<Call>, host: string, t: int)
    requires Ordered(calls)
    ensures |AllowedIn(window, limit, calls, host, t)| <= 2 * limit
  {
    var s := AllowedIn(window, limit, calls, host, t);
    if s != {} {
      var last := Greatest(s);
      var late := RowAt(window, calls, last).windowStart;
      var inLate := set k | k in s && RowAt(window, calls, k).windowStart == late;
      var rest := s - inLate;
      AllowedPerWindow(window, limit, calls, host, late, inLate);
      if rest != {} {
        var other := Greatest(rest);
        var early := RowAt(window, calls, other).windowStart;
        forall k | k in rest ensures RowAt(window, calls, k).windowStart == early {
          WindowsApart(window, calls, k, other);
          WindowsApart(window, calls, other, last);
          WindowsApart(window, calls, k, k);
        }
        AllowedPerWindow(window, limit, calls, host, early, rest);
      }
      assert s == inLate + rest;
    }
  }

  // ---------------------------------------------------------------------------
  // The Redis implementation

  datatype Redis = Redis(windows: map<string, int>, counts: map<string, nat>)

  /** A call, and whether Redis has already expired the host's two keys by then. */
  datatype RedisCall = RedisCall(call: Call, windowGone: bool, countGone: bool)

  /** Keys carry a time to live of `window`: they may be gone once that old, not before. */
  predicate MayExpire(r: Redis, window: nat, e: RedisCall)
  {
    e.windowGone || e.countGone ==>
      e.call.host in r.windows && e.call.now - r.windows[e.call.host] >= window
  }

  function RedisStep(r: Redis, window: nat, e: RedisCall): Redis
  {
    var h, now := e.call.host, e.call.now;
    if e.windowGone || h !in r.windows || r.windows[h] < now - window then
      Redis(r.windows[h := now], r.counts[h := 1])
    else
      r.(counts := r.counts[h := (if e.countGone || h !in r.counts then 0 else r.counts[h]) + 1])
  }

  function RedisRun(window: nat, trace: seq<RedisCall>): (r: Redis)
    ensures trace != [] ==> trace[|trace| - 1].call.host in r.counts
  {
    if trace == [] then Redis(map[], map[])
    else RedisStep(RedisRun(window, trace[..|trace| - 1]), window, trace[|trace| - 1])
  }

  function CallsIn(trace: seq<RedisCall>): (calls: seq<Call>)
    ensures |calls| == |trace|
    ensures forall i | 0 <= i < |trace| :: calls[i] == trace[i].call
  {
    seq(|trace|, i requires 0 <= i < |trace| => trace[i].call)
  }

  predicate Expired(e: RedisCall) { e.windowGone || e.countGone }

  /** A call exactly when its host's window is `window` old. */
  predicate AtWindowsEnd(r: Redis, window: nat, e: RedisCall)
  {
    e.call.host in r.windows && e.call.now == r.windows[e.call.host] + window
  }

  /** Keys expire no earlier than their time to live, and are still there for a call that
      comes exactly when a window is `window` old. */
  ghost predicate Legal(window: nat, trace: seq<RedisCall>)
  {
    forall k | 0 <= k < |trace| ::
      var r := RedisRun(window, trace[..k]);
      MayExpire(r, window, trace[k]) && !(Expired(trace[k]) && AtWindowsEnd(r, window, trace[k]))
  }

  lemma LegalPrefix(window: nat, trace: seq<RedisCall>)
    requires Legal(window, trace) && trace != []
    ensures Legal(window, trace[..|trace| - 1])
    ensures CallsIn(trace[..|trace| - 1]) == CallsIn(trace)[..|trace| - 1]
  {
    var n := |trace| - 1;
    var init := trace[..n];
    forall k | 0 <= k < n
      ensures MayExpire(RedisRun(window, init[..k]), window, init[k])
      ensures !(Expired(init[k]) && AtWindowsEnd(RedisRun(window, init[..k]), window, init[k]))
    {
      assert init[..k] == trace[..k];
      assert MayExpire(RedisRun(window, trace[..k]), window, trace[k]);
    }
  }

  /** Redis holds the host's window and count, expired or not. */
  ghost predicate Tracks(r: Redis, own: Option<Row>, host: string)
  {
    && (host in r.windows <==> own.Some?) && (host in r.counts <==> own.Some?)
    && (own.Some? ==> own.value == Row(r.windows[host], r.counts[host]))
  }

  lemma {:induction false} RedisTracksHost(window: nat, trace: seq<RedisCall>, host: string)
    requires Legal(window, trace)
    ensures Tracks(RedisRun(window, trace), HostRow(window, CallsIn(trace), host), host)
  {
    if trace != [] {
      var n := |trace| - 1;
      LegalPrefix(window, trace);
      RedisTracksHost(window, trace[..n], host);
      assert MayExpire(RedisRun(window, trace[..n]), window, trace[n]);
      assert CallsIn(trace)[n] == trace[n].call;
    }
  }

  /** Does Redis turn the last call of the trace away? */
  predicate RedisExceeds(window: nat, limit: nat, trace: seq<RedisCall>)
    requires trace != []
  {
    RedisRun(window, trace).counts[trace[|trace| - 1].call.host] > limit
  }

  /** After a trace on which keys were there at every window's end, Redis and the table
      disagree on the next call exactly when it comes at its window's end, finds a key
      expired, and the window's allowance had been used up. */
  lemma VerdictsDifferIff(window: nat, limit: nat, trace: seq<RedisCall>)
    requires trace != [] && Ordered(CallsIn(trace))
    requires Legal(window, trace[..|trace| - 1])
    requires MayExpire(RedisRun(window, trace[..|trace| - 1]), window, trace[|trace| - 1])
    ensures RedisExceeds(window, limit, trace) != DbExceeds(window, limit, CallsIn(trace)) <==>
              var r, e := RedisRun(window, trace[..|trace| - 1]), trace[|trace| - 1];
              && Expired(e) && AtWindowsEnd(r, window, e)
              && e.call.host in r.counts && 1 <= limit <= r.counts[e.call.host]
  {
    var n, e := |trace| - 1, trace[|trace| - 1];
    var calls := CallsIn(trace);
    assert CallsIn(trace[..n]) == calls[..n] && calls[n] == e.call;
    RedisTracksHost(window, trace[..n], e.call.host);
    LastCallTracked(window, calls);
  }

  /** Hence they give the same verdict on every call of every trace on which no key has
      expired by its window's very end, in particular when no call comes just then. */
  lemma SameVerdict(window: nat, limit: nat, trace: seq<RedisCall>)
    requires Ordered(CallsIn(trace)) && Legal(window, trace) && trace != []
    ensures RedisExceeds(window, limit, trace) <==> DbExceeds(window, limit, CallsIn(trace))
  {
    var n := |trace| - 1;
    LegalPrefix(window, trace);
    assert MayExpire(RedisRun(window, trace[..n]), window, trace[n]);
    VerdictsDifferIff(window, limit, trace);
  }

  /** A call, and one more exactly at the end of its window, which has expired by then. */
  function TwoCalls(host: string, t: int, window: nat): seq<RedisCall>
  {
    [RedisCall(Call(host, t), false, false), RedisCall(Call(host, t + window), true, true)]
  }

  /** With an allowance of one, such calls come about from empty limiters and get
      different verdicts: Redis opens a new window, the table still counts in the old one. */
  lemma VerdictsDifferExample(host: string, t: int, window: nat)
    ensures var trace := TwoCalls(host, t, window);
            && Ordered(CallsIn(trace)) && Legal(window, trace[..1])
            && MayExpire(RedisRun(window, trace[..1]), window, trace[1])
            && !RedisExceeds(window, 1, trace) && DbExceeds(window, 1, CallsIn(trace))
  {
    var trace := TwoCalls(host, t, window);
    assert trace[..1] == [trace[0]] && trace[..1][..0] == [];
    assert RedisRun(window, trace[..1]) == Redis(map[host := t], map[host := 1]);
    VerdictsDifferIff(window, 1, trace);
  }

  class RedisLimiter {
    var windows: map<string, int>
    var counts: map<string, nat>

    ghost function Value(): Redis
      reads this
    {
      Redis(windows, counts)
    }

    constructor ()
      ensures Value() == Redis(map[], map[])
    {
      windows, counts := map[], map[];
    }

    /** `_update_ratelimit_redis` followed by the comparison of `check_ratelimit`.
        Expired keys read as absent. */
    method Check(e: RedisCall, window: nat, limit: nat) returns (exceeded: bool)
      modifies this
      ensures Value() == RedisStep(old(Value()), window, e)
      ensures e.call.host in counts && (exceeded <==> counts[e.call.host] > limit)
    {
      var host := e.call.host;
      var start := if e.windowGone || host !in windows then None else Some(windows[host]);
      if start.None? || start.value < e.call.now - window {
        windows := windows[host := e.call.now];
        counts := counts[host := 1];
      } else {
        var count := if e.countGone || host !in counts then 0 else counts[host];
        counts := counts[host := count + 1];
      }
      exceeded := counts[host] > limit;
    }
  }
}
