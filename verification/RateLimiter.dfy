/** The fixed-window rate limiter (backend/middleware/rate_limiter.go). Times are nanoseconds. */
module RateLimiter {
  import opened Wrappers

  /** The settings of NewRateLimiter that its arguments do not give. */
  const DEFAULT_MAX_VISITORS: int := 10_000
  const DEFAULT_CLEANUP_INTERVAL: int := 60 * 1_000_000_000

  datatype Visitor = Visitor(count: int, windowStart: int)

  type Visitors = map<string, Visitor>

  predicate IsExpired(v: Visitor, now: int, window: int) {
    now - v.windowStart > window
  }

  function Cleaned(visitors: Visitors, now: int, window: int): Visitors {
    map ip | ip in visitors && !IsExpired(visitors[ip], now, window) :: visitors[ip]
  }

  /** The decision of Allow and the visitors after it. */
  function Decide(visitors: Visitors, ip: string, now: int, maxReqs: int, window: int, maxVisitors: int): (Visitors,
                  bool) {
    if ip !in visitors then
      if maxVisitors > 0 && |visitors| >= maxVisitors then (visitors, false)
      else (visitors[ip := Visitor(1, now)], true)
    else if IsExpired(visitors[ip], now, window) then (visitors[ip := Visitor(1, now)], true)
    else
      var count := visitors[ip].count + 1;
      (visitors[ip := visitors[ip].(count := count)], count <= maxReqs)
  }

  // ---- windows ----

  /** A window of one key: its start and the times of the requests it accepted. */
  datatype Window = Window(start: int, times: seq<int>)

  /** The first request of a window is accepted even when the limit is zero. */
  function Limit(maxReqs: int): nat {
    if maxReqs < 1 then 1 else maxReqs
  }

  function Times(ws: seq<Window>): seq<int> {
    if ws == [] then [] else Times(ws[..|ws| - 1]) + ws[|ws| - 1].times
  }

  predicate WindowFits(w: Window, window: int, limit: nat) {
    |w.times| <= limit && forall t <- w.times :: w.start <= t <= w.start + window
  }

  /** Windows do not overlap, and each accepts no more than the limit. */
  predicate Separate(ws: seq<Window>, window: int, limit: nat) {
    && (forall i :: 0 <= i < |ws| ==> WindowFits(ws[i], window, limit))
    && forall i, j :: 0 <= i < j < |ws| ==> ws[j].start > ws[i].start + window
  }

  /** How many of the times lie in a closed interval. */
  function Count(times: seq<int>, from: int, to: int): nat {
    if times == [] then 0
    else Count(times[..|times| - 1], from, to) + if from <= times[|times| - 1] <= to then 1 else 0
  }

  lemma {:induction false} CountConcat(x: seq<int>, y: seq<int>, from: int, to: int)
    ensures Count(x + y, from, to) == Count(x, from, to) + Count(y, from, to)
    decreases |y|
  {
    if y == [] {
      assert x + y == x;
    } else {
      assert (x + y)[..|x + y| - 1] == x + y[..|y| - 1];
      CountConcat(x, y[..|y| - 1], from, to);
    }
  }

  lemma {:induction false} CountBound(w: Window, n: nat, window: int, from: int, to: int)
    requires n <= |w.times| && forall t <- w.times :: w.start <= t <= w.start + window
    ensures Count(w.times[..n], from, to) <= n
    ensures w.start + window < from || to < w.start ==> Count(w.times[..n], from, to) == 0
  {
    if n > 0 {
      assert w.times[..n][..n - 1] == w.times[..n - 1];
      assert w.times[n - 1] in w.times;
      CountBound(w, n - 1, window, from, to);
    }
  }

  /** The last window's share of an interval, and that of the others. */
  lemma CountLast(ws: seq<Window>, window: int, limit: nat, from: int, to: int)
    requires ws != [] && Separate(ws, window, limit)
    ensures var w, front := ws[|ws| - 1], ws[..|ws| - 1];
            && Separate(front, window, limit)
            && Count(Times(ws), from, to) <= Count(Times(front), from, to) + limit
            && (w.start + window < from || to < w.start ==> Count(Times(ws), from, to) == Count(Times(front), from, to))
  {
    var w := ws[|ws| - 1];
    CountConcat(Times(ws[..|ws| - 1]), w.times, from, to);
    assert WindowFits(w, window, limit);
    assert w.times[..|w.times|] == w.times;
    CountBound(w, |w.times|, window, from, to);
  }

  lemma {:induction false} NoneReaches(ws: seq<Window>, window: int, limit: nat, from: int, to: int)
    requires Separate(ws, window, limit) && window >= 0
    requires forall i :: 0 <= i < |ws| ==> ws[i].start + window < from
    ensures Count(Times(ws), from, to) == 0
    decreases |ws|
  {
    if ws != [] {
      CountLast(ws, window, limit, from, to);
      NoneReaches(ws[..|ws| - 1], window, limit, from, to);
    }
  }

  lemma OneReaches(ws: seq<Window>, window: int, limit: nat, from: int, to: int)
    requires Separate(ws, window, limit) && window >= 0
    requires forall i :: 0 <= i < |ws| ==> ws[i].start < from
    ensures Count(Times(ws), from, to) <= limit
  {
    if ws != [] {
      CountLast(ws, window, limit, from, to);
      NoneReaches(ws[..|ws| - 1], window, limit, from, to);
    }
  }

  /** In any closed interval as long as the window, no more than twice the limit is accepted. */
  lemma {:induction false} TwoReach(ws: seq<Window>, window: int, limit: nat, from: int)
    requires Separate(ws, window, limit) && window >= 0
    ensures Count(Times(ws), from, from + window) <= 2 * limit
    decreases |ws|
  {
    if ws != [] {
      var w, front := ws[|ws| - 1], ws[..|ws| - 1];
      CountLast(ws, window, limit, from, from + window);
      if w.start <= from + window {
        OneReaches(front, window, limit, from, from + window);
      } else {
        TwoReach(front, window, limit, from);
      }
    }
  }

  // ---- the limiter ----

  /** The windows of a key against its visitor: the last window is the visitor's, or it is over. */
  predicate Current(ws: seq<Window>, visitors: Visitors, ip: string, window: int, maxReqs: int, now: int) {
    if ip in visitors then
      && ws != []
      && var last, v := ws[|ws| - 1], visitors[ip];
         && last.start == v.windowStart <= now && v.count >= 1
         && |last.times| == if v.count <= Limit(maxReqs) then v.count else Limit(maxReqs)
    else ws != [] ==> ws[|ws| - 1].start + window < now
  }

  lemma CurrentLater(ws: seq<Window>, visitors: Visitors, ip: string, window: int, maxReqs: int, past: int, now: int)
    requires Current(ws, visitors, ip, window, maxReqs, past) && past <= now
    ensures Current(ws, visitors, ip, window, maxReqs, now)
    ensures Current(ws, Cleaned(visitors, now, window), ip, window, maxReqs, now)
  {
  }

  /** The windows of a key after a request: an accepted one opens a window or joins the last one. */
  function NextWindows(ws: seq<Window>, visitors: Visitors, ip: string, now: int, maxReqs: int, window: int,
                       maxVisitors: int): seq<Window>
  {
    if !Decide(visitors, ip, now, maxReqs, window, maxVisitors).1 then ws
    else if ip in visitors && !IsExpired(visitors[ip], now, window) && ws != [] then
      ws[..|ws| - 1] + [ws[|ws| - 1].(times := ws[|ws| - 1].times + [now])]
    else ws + [Window(now, [now])]
  }

  lemma TimesSnoc(ws: seq<Window>, w: Window)
    ensures Times(ws + [w]) == Times(ws) + w.times
  {
    assert (ws + [w])[..|ws|] == ws;
  }

  lemma SeparateSnoc(ws: seq<Window>, w: Window, window: int, limit: nat)
    requires Separate(ws, window, limit) && WindowFits(w, window, limit) && window >= 0
    requires ws != [] ==> w.start > ws[|ws| - 1].start + window
    ensures Separate(ws + [w], window, limit)
  {
    var all := ws + [w];
    forall i | 0 <= i < |ws|
      ensures all[|ws|].start > all[i].start + window
    {
      assert i < |ws| - 1 ==> ws[|ws| - 1].start > ws[i].start + window;
    }
  }

  lemma SeparateFront(ws: seq<Window>, window: int, limit: nat)
    requires Separate(ws, window, limit) && ws != []
    ensures var front, last := ws[..|ws| - 1], ws[|ws| - 1];
            && Separate(front, window, limit) && WindowFits(last, window, limit)
            && (front != [] ==> last.start > front[|front| - 1].start + window)
  {
  }

  lemma JoinWindow(ws: seq<Window>, now: int, window: int, limit: nat)
    requires window >= 0 && Separate(ws, window, limit) && ws != []
    requires |ws[|ws| - 1].times| < limit && ws[|ws| - 1].start <= now <= ws[|ws| - 1].start + window
    ensures var next := ws[..|ws| - 1] + [ws[|ws| - 1].(times := ws[|ws| - 1].times + [now])];
            Separate(next, window, limit) && Times(next) == Times(ws) + [now]
  {
    hide Separate;
    SeparateFront(ws, window, limit);
    var front, last := ws[..|ws| - 1], ws[|ws| - 1];
    var w := last.(times := last.times + [now]);
    SeparateSnoc(front, w, window, limit);
    TimesSnoc(front, w);
    assert Times(front) + last.times + [now] == Times(front) + w.times;
  }

  lemma OpenWindow(ws: seq<Window>, now: int, window: int, limit: nat)
    requires window >= 0 && Separate(ws, window, limit) && limit > 0
    requires ws != [] ==> now > ws[|ws| - 1].start + window
    ensures Separate(ws + [Window(now, [now])], window, limit)
    ensures Times(ws + [Window(now, [now])]) == Times(ws) + [now]
  {
    hide Separate;
    SeparateSnoc(ws, Window(now, [now]), window, limit);
    TimesSnoc(ws, Window(now, [now]));
  }

  /** A decision keeps the windows of its key separate, and adds the time of what it accepts. */
  lemma DecideKeepsWindows(ws: seq<Window>, visitors: Visitors, ip: string, now: int, maxReqs: int, window: int,
                           maxVisitors: int)
    requires window >= 0 && Separate(ws, window, Limit(maxReqs)) && Current(ws, visitors, ip, window, maxReqs, now)
    ensures var (after, r) := Decide(visitors, ip, now, maxReqs, window, maxVisitors);
            var next := NextWindows(ws, visitors, ip, now, maxReqs, window, maxVisitors);
            && Separate(next, window, Limit(maxReqs)) && Current(next, after, ip, window, maxReqs, now)
            && Times(next) == Times(ws) + (if r then [now] else [])
  {
    hide Separate, Times;
    if !Decide(visitors, ip, now, maxReqs, window, maxVisitors).1 {
      assert Times(ws) + [] == Times(ws);
    } else if ip in visitors && !IsExpired(visitors[ip], now, window) {
      JoinWindow(ws, now, window, Limit(maxReqs));
    } else {
      OpenWindow(ws, now, window, Limit(maxReqs));
    }
  }

  predicate AllCurrent(windows: map<string, seq<Window>>, visitors: Visitors, window: int, maxReqs: int, now: int) {
    && visitors.Keys <= windows.Keys
    && forall ip <- windows :: Current(windows[ip], visitors, ip, window, maxReqs, now)
  }

  function WindowsOf(windows: map<string, seq<Window>>, ip: string): seq<Window> {
    if ip in windows then windows[ip] else []
  }

  lemma AllCurrentLater(windows: map<string, seq<Window>>, visitors: Visitors, window: int, maxReqs: int, past: int,
                        now: int)
    requires AllCurrent(windows, visitors, window, maxReqs, past) && past <= now
    ensures AllCurrent(windows, visitors, window, maxReqs, now)
    ensures AllCurrent(windows, Cleaned(visitors, now, window), window, maxReqs, now)
  {
    hide Current;
    forall ip <- windows
      ensures Current(windows[ip], visitors, ip, window, maxReqs, now)
      ensures Current(windows[ip], Cleaned(visitors, now, window), ip, window, maxReqs, now)
    {
      CurrentLater(windows[ip], visitors, ip, window, maxReqs, past, now);
    }
  }

  lemma AllCurrentNext(windows: map<string, seq<Window>>, visitors: Visitors, ip: string, ws: seq<Window>,
                       after: Visitors, window: int, maxReqs: int, now: int)
    requires AllCurrent(windows, visitors, window, maxReqs, now) && Current(ws, after, ip, window, maxReqs, now)
    requires after.Keys <= visitors.Keys + {ip}
    requires forall key :: key != ip ==>
      (key in visitors <==> key in after) && (key in visitors ==> visitors[key] == after[key])
    ensures AllCurrent(windows[ip := ws], after, window, maxReqs, now)
  {
  }

  lemma NothingCurrent(window: int, maxReqs: int, now: int)
    ensures AllCurrent(map[], map[], window, maxReqs, now) && Cleaned(map[], now, window) == map[]
  {
  }

  lemma SeparateNone(window: int, limit: nat)
    ensures Separate([], window, limit) && Times([]) == []
  {
  }

  lemma CurrentBefore(windows: map<string, seq<Window>>, visitors: Visitors, ip: string, window: int, maxReqs: int,
                      now: int)
    requires AllCurrent(windows, visitors, window, maxReqs, now)
    ensures Current(WindowsOf(windows, ip), visitors, ip, window, maxReqs, now)
  {
  }

  /** The log of accepted requests is that of separate windows, which agree with the visitors; and the
      visitors keep to their number. */
  predicate Recorded(visitors: Visitors, accepted: map<string, seq<int>>, windows: map<string, seq<Window>>,
                     latest: Option<int>, maxReqs: int, window: int, maxVisitors: int)
  {
    && window >= 0 && accepted.Keys == windows.Keys
    && (latest.None? ==> windows == map[] && visitors == map[])
    && (latest.Some? ==> AllCurrent(windows, visitors, window, maxReqs, latest.value))
    && (forall ip <- windows :: Separate(windows[ip], window, Limit(maxReqs)) && accepted[ip] == Times(windows[ip]))
    && (maxVisitors > 0 ==> |visitors| <= maxVisitors)
  }

  lemma CleanedCount(visitors: Visitors, now: int, window: int)
    ensures |Cleaned(visitors, now, window)| <= |visitors|
  {
    Subset(Cleaned(visitors, now, window).Keys, visitors.Keys);
  }

  lemma Subset(x: set<string>, y: set<string>)
    requires x <= y
    ensures |x| <= |y|
  {
    assert y == x + (y - x);
  }

  lemma DecideCount(visitors: Visitors, ip: string, now: int, maxReqs: int, window: int, maxVisitors: int)
    requires maxVisitors > 0 ==> |visitors| <= maxVisitors
    ensures maxVisitors > 0 ==> |Decide(visitors, ip, now, maxReqs, window, maxVisitors).0| <= maxVisitors
  {
    var after := Decide(visitors, ip, now, maxReqs, window, maxVisitors).0;
    if after != visitors {
      assert after.Keys == visitors.Keys + {ip};
    }
  }

  lemma DecideOthers(visitors: Visitors, ip: string, now: int, maxReqs: int, window: int, maxVisitors: int)
    ensures var after := Decide(visitors, ip, now, maxReqs, window, maxVisitors).0;
            && after.Keys <= visitors.Keys + {ip}
            && forall key :: key != ip ==>
                 (key in visitors <==> key in after) && (key in visitors ==> visitors[key] == after[key])
  {
  }

  function Logged(accepted: map<string, seq<int>>, ip: string): seq<int> {
    if ip in accepted then accepted[ip] else []
  }

  /** A cleanup, or none, and a decision keep the record. */
  lemma RequestKeepsRecord(visitors: Visitors, accepted: map<string, seq<int>>, windows: map<string, seq<Window>>,
                           latest: Option<int>, before: Visitors, ip: string, now: int, maxReqs: int, window: int,
                           maxVisitors: int)
    requires Recorded(visitors, accepted, windows, latest, maxReqs, window, maxVisitors)
    requires latest.Some? ==> latest.value <= now
    requires before == visitors || before == Cleaned(visitors, now, window)
    ensures var (after, r) := Decide(before, ip, now, maxReqs, window, maxVisitors);
            var next := NextWindows(WindowsOf(windows, ip), before, ip, now, maxReqs, window, maxVisitors);
            && Recorded(after, accepted[ip := Times(next)], windows[ip := next], Some(now),
                        maxReqs, window, maxVisitors)
            && Times(next) == Logged(accepted, ip) + if r then [now] else []
  {
    hide Separate, Times, Current, AllCurrent, NextWindows, Decide, Cleaned;
    if latest.Some? {
      AllCurrentLater(windows, visitors, window, maxReqs, latest.value, now);
    } else {
      NothingCurrent(window, maxReqs, now);
    }
    CleanedCount(visitors, now, window);
    DecideCount(before, ip, now, maxReqs, window, maxVisitors);
    var ws := WindowsOf(windows, ip);
    CurrentBefore(windows, before, ip, window, maxReqs, now);
    SeparateNone(window, Limit(maxReqs));
    DecideKeepsWindows(ws, before, ip, now, maxReqs, window, maxVisitors);
    DecideOthers(before, ip, now, maxReqs, window, maxVisitors);
    AllCurrentNext(windows, before, ip, NextWindows(ws, before, ip, now, maxReqs, window, maxVisitors),
      Decide(before, ip, now, maxReqs, window, maxVisitors).0, window, maxReqs, now);
  }

  // ---- what has been granted in the current window ----

  lemma {:induction false} CountWithin(times: seq<int>, from: int, to: int)
    requires forall t <- times :: from <= t <= to
    ensures Count(times, from, to) == |times|
    decreases |times|
  {
    if times != [] {
      var front, last := times[..|times| - 1], times[|times| - 1];
      assert times == front + [last] && last in times;
      assert forall t <- front :: t in times;
      CountWithin(front, from, to);
    }
  }

  /** All but the last window of a key are over before the last one starts. */
  lemma CountInLast(ws: seq<Window>, window: int, limit: nat)
    requires window >= 0 && Separate(ws, window, limit) && ws != []
    ensures var last := ws[|ws| - 1];
            Count(Times(ws), last.start, last.start + window) == |last.times|
  {
    var front, last := ws[..|ws| - 1], ws[|ws| - 1];
    assert WindowFits(last, window, limit);
    CountConcat(Times(front), last.times, last.start, last.start + window);
    NoneReaches(front, window, limit, last.start, last.start + window);
    CountWithin(last.times, last.start, last.start + window);
  }

  /** A visitor's count tells whether fewer requests than the limit were granted in its window. */
  lemma KnownVisitor(visitors: Visitors, accepted: map<string, seq<int>>, windows: map<string, seq<Window>>,
                     latest: Option<int>, maxReqs: int, window: int, maxVisitors: int)
    requires Recorded(visitors, accepted, windows, latest, maxReqs, window, maxVisitors)
    ensures forall ip <- visitors ::
      var start := visitors[ip].windowStart;
      Count(Logged(accepted, ip), start, start + window) < maxReqs <==> visitors[ip].count < maxReqs
  {
    hide Separate, Times;
    forall ip | ip in visitors
      ensures var start := visitors[ip].windowStart;
              Count(Logged(accepted, ip), start, start + window) < maxReqs <==> visitors[ip].count < maxReqs
    {
      assert latest.Some? && ip in windows;
      assert Current(windows[ip], visitors, ip, window, maxReqs, latest.value);
      CountInLast(windows[ip], window, Limit(maxReqs));
    }
  }

  lemma DecidesByWindow(was: Visitors, before: Visitors, ip: string, now: int, maxReqs: int, window: int,
                        maxVisitors: int)
    requires before == was || before == Cleaned(was, now, window)
    ensures var (after, r) := Decide(before, ip, now, maxReqs, window, maxVisitors);
            if ip in was && now <= was[ip].windowStart + window then r <==> was[ip].count < maxReqs
            else
              && (r ==> ip in after && after[ip] == Visitor(1, now))
              && (!r ==> ip !in after && 0 < maxVisitors <= |after|)
  {
  }

  class Limiter {
    const maxReqs: int
    const window: int
    const cleanupInterval: int
    const maxVisitors: int
    var visitors: Visitors
    /** None is the zero time. */
    var lastCleanup: Option<int>
    /** For each key the times of its accepted requests and the windows they fall in, and the time of
        the latest request. */
    ghost var accepted: map<string, seq<int>>
    ghost var windows: map<string, seq<Window>>
    ghost var latest: Option<int>

    ghost predicate Valid()
      reads this
    {
      Recorded(visitors, accepted, windows, latest, maxReqs, window, maxVisitors)
    }

    constructor (maxReqs: int, window: int)
      requires window >= 0
      ensures Valid() && accepted == map[] && visitors == map[] && latest.None? && lastCleanup.None?
      ensures this.maxReqs == maxReqs && this.window == window
      ensures cleanupInterval == 60_000_000_000 && maxVisitors == 10_000
    {
      this.maxReqs, this.window := maxReqs, window;
      cleanupInterval, maxVisitors := DEFAULT_CLEANUP_INTERVAL, DEFAULT_MAX_VISITORS;
      visitors, lastCleanup := map[], None;
      accepted, windows, latest := map[], map[], None;
    }

    /** What one key has been granted. */
    ghost function Accepted(ip: string): seq<int>
      reads this`accepted
    {
      Logged(accepted, ip)
    }

    method CleanupExpired(now: int)
      modifies this`visitors, this`lastCleanup
      ensures visitors == if old(lastCleanup).Some? && now - old(lastCleanup).value >= cleanupInterval
                          then Cleaned(old(visitors), now, window) else old(visitors)
      ensures lastCleanup == if old(lastCleanup).None? || now - old(lastCleanup).value >= cleanupInterval
                             then Some(now) else old(lastCleanup)
    {
      if lastCleanup.None? {
        lastCleanup := Some(now);
        return;
      }
      if now - lastCleanup.value < cleanupInterval {
        return;
      }
      var rest := visitors.Keys;
      while rest != {}
        invariant rest <= old(visitors).Keys && visitors.Keys <= old(visitors).Keys
        invariant lastCleanup == old(lastCleanup)
        invariant forall ip <- old(visitors) ::
          (ip in visitors <==> ip in rest || !IsExpired(old(visitors)[ip], now, window))
        invariant forall ip <- visitors :: visitors[ip] == old(visitors)[ip]
      {
        var ip :| ip in rest;
        if ip in visitors && IsExpired(visitors[ip], now, window) {
          visitors := visitors - {ip};
        }
        rest := rest - {ip};
      }
      assert visitors == Cleaned(old(visitors), now, window);
      lastCleanup := Some(now);
    }

    /** The decision itself, after any cleanup. */
    method Admit(ip: string, now: int) returns (r: bool)
      modifies this`visitors
      ensures (visitors, r) == Decide(old(visitors), ip, now, maxReqs, window, maxVisitors)
    {
      if ip !in visitors {
        if maxVisitors > 0 && |visitors| >= maxVisitors {
          return false;
        }
        visitors := visitors[ip := Visitor(1, now)];
        return true;
      }
      if IsExpired(visitors[ip], now, window) {
        visitors := visitors[ip := Visitor(1, now)];
        return true;
      }
      var count := visitors[ip].count + 1;
      visitors := visitors[ip := visitors[ip].(count := count)];
      if count > maxReqs {
        return false;
      }
      return true;
    }

    /** One request. The clock does not go back. A key with a current window is granted the request
        exactly when fewer than maxReqs were granted in that window; any other key starts a window,
        unless there are too many visitors. */
    method Allow(ip: string, now: int) returns (r: bool)
      requires Valid() && (latest.Some? ==> latest.value <= now)
      modifies this
      ensures Valid() && latest == Some(now)
      ensures var before := if old(lastCleanup).Some? && now - old(lastCleanup).value >= cleanupInterval
                            then Cleaned(old(visitors), now, window) else old(visitors);
              (visitors, r) == Decide(before, ip, now, maxReqs, window, maxVisitors)
      ensures forall key :: Accepted(key) == old(Accepted(key)) + if key == ip && r then [now] else []
      ensures ip in old(visitors) && now <= old(visitors)[ip].windowStart + window ==>
        var start := old(visitors)[ip].windowStart;
        r <==> Count(old(Accepted(ip)), start, start + window) < maxReqs
      ensures !(ip in old(visitors) && now <= old(visitors)[ip].windowStart + window) ==>
        && (r ==> ip in visitors && visitors[ip] == Visitor(1, now))
        && (!r ==> ip !in visitors && 0 < maxVisitors <= |visitors|)
    {
      hide Recorded, Times, NextWindows, Cleaned, Decide, Count;
      KnownVisitor(visitors, accepted, windows, latest, maxReqs, window, maxVisitors);
      CleanupExpired(now);
      ghost var before := visitors;
      RequestKeepsRecord(old(visitors), accepted, windows, latest, before, ip, now, maxReqs, window, maxVisitors);
      DecidesByWindow(old(visitors), before, ip, now, maxReqs, window, maxVisitors);
      windows := windows[ip := NextWindows(WindowsOf(windows, ip), before, ip, now, maxReqs, window, maxVisitors)];
      accepted := accepted[ip := Times(windows[ip])];
      latest := Some(now);
      r := Admit(ip, now);
    }

    /** In any closed interval as long as the window, a key is granted no more than twice the limit. */
    lemma RateBound(ip: string, from: int)
      requires Valid()
      ensures Count(Accepted(ip), from, from + window) <= 2 * Limit(maxReqs)
    {
      if ip in windows {
        TwoReach(windows[ip], window, Limit(maxReqs), from);
      } else {
        assert ip !in accepted.Keys;
      }
    }
  }

  // ---- cleaning up does not matter ----

  datatype Request = Request(ip: string, now: int, cleanup: bool)

  predicate InOrder(requests: seq<Request>) {
    forall i, j :: 0 <= i < j < |requests| ==> requests[i].now <= requests[j].now
  }

  /** The decisions of a run without a visitor cap, with the cleanups that the requests ask for or with
      none. */
  function Decisions(visitors: Visitors, requests: seq<Request>, maxReqs: int, window: int, cleaning: bool): seq<bool>
    decreases |requests|
  {
    if requests == [] then []
    else
      var q := requests[0];
      var before := if cleaning && q.cleanup then Cleaned(visitors, q.now, window) else visitors;
      var (after, r) := Decide(before, q.ip, q.now, maxReqs, window, 0);
      [r] + Decisions(after, requests[1..], maxReqs, window, cleaning)
  }

  /** The same visitors, but for expired ones. */
  predicate SameUnexpired(x: Visitors, y: Visitors, now: int, window: int) {
    && (forall ip <- x :: IsExpired(x[ip], now, window) || (ip in y && y[ip] == x[ip]))
    && forall ip <- y :: IsExpired(y[ip], now, window) || (ip in x && x[ip] == y[ip])
  }

  lemma DecideSame(x: Visitors, y: Visitors, ip: string, now: int, maxReqs: int, window: int)
    requires SameUnexpired(x, y, now, window) && window >= 0
    ensures var (a, r), (b, s) := Decide(x, ip, now, maxReqs, window, 0), Decide(y, ip, now, maxReqs, window, 0);
            r == s && SameUnexpired(a, b, now, window)
  {
  }

  /** Without a visitor cap, any pattern of cleanups gives the decisions of no cleanup at all. */
  lemma {:induction false} CleanupChangesNothing(x: Visitors, y: Visitors, requests: seq<Request>, now: int,
                                                 maxReqs: int, window: int)
    requires SameUnexpired(x, y, now, window) && window >= 0
    requires InOrder(requests) && (requests != [] ==> now <= requests[0].now)
    ensures Decisions(x, requests, maxReqs, window, true) == Decisions(y, requests, maxReqs, window, false)
    decreases |requests|
  {
    if requests != [] {
      var q := requests[0];
      var before := if q.cleanup then Cleaned(x, q.now, window) else x;
      assert SameUnexpired(before, y, q.now, window);
      DecideSame(before, y, q.ip, q.now, maxReqs, window);
      CleanupChangesNothing(Decide(before, q.ip, q.now, maxReqs, window, 0).0,
        Decide(y, q.ip, q.now, maxReqs, window, 0).0, requests[1..], q.now, maxReqs, window);
    }
  }

  // ---- when the limit is kept ----

  /** A first request is granted whatever the limit: with a limit below one, it is the only one of its
      window. */
  lemma FirstIsGranted(ip: string, t: int, u: int, maxReqs: int, window: int)
    requires maxReqs < 1 && window >= 0 && t <= u
    ensures Decisions(map[], [Request(ip, t, false), Request(ip, u, false)], maxReqs, window, true) ==
            [true, u > t + window]
  {
    var two := [Request(ip, t, false), Request(ip, u, false)];
    var visitors := Decide(map[], ip, t, maxReqs, window, 0).0;
    assert two[1..][1..] == [];
    assert Decisions(visitors, two[1..], maxReqs, window, true) == [u > t + window];
  }

  /** The windows of one key after a run, with any cleanups and any visitor cap. */
  function RunWindows(ws: seq<Window>, visitors: Visitors, requests: seq<Request>, ip: string, maxReqs: int,
                      window: int, maxVisitors: int): seq<Window>
    decreases |requests|
  {
    if requests == [] then ws
    else
      var q := requests[0];
      var before := if q.cleanup then Cleaned(visitors, q.now, window) else visitors;
      var next := if q.ip == ip then NextWindows(ws, before, ip, q.now, maxReqs, window, maxVisitors) else ws;
      RunWindows(next, Decide(before, q.ip, q.now, maxReqs, window, maxVisitors).0, requests[1..], ip, maxReqs,
                 window, maxVisitors)
  }

  /** The times at which one key is granted a request on a run. */
  function Granted(visitors: Visitors, requests: seq<Request>, ip: string, maxReqs: int, window: int,
                   maxVisitors: int): seq<int>
    decreases |requests|
  {
    if requests == [] then []
    else
      var q := requests[0];
      var before := if q.cleanup then Cleaned(visitors, q.now, window) else visitors;
      var (after, r) := Decide(before, q.ip, q.now, maxReqs, window, maxVisitors);
      (if r && q.ip == ip then [q.now] else [])
      + Granted(after, requests[1..], ip, maxReqs, window, maxVisitors)
  }

  /** No run grants any key more than maxReqs requests in one of its windows. */
  ghost predicate KeepsLimit(maxReqs: int, window: int, maxVisitors: int) {
    forall requests: seq<Request>, ip: string :: InOrder(requests) ==>
      forall w <- RunWindows([], map[], requests, ip, maxReqs, window, maxVisitors) :: |w.times| <= maxReqs
  }

  lemma CurrentElsewhere(ws: seq<Window>, visitors: Visitors, after: Visitors, ip: string, window: int, maxReqs: int,
                         now: int)
    requires Current(ws, visitors, ip, window, maxReqs, now)
    requires (ip in visitors <==> ip in after) && (ip in visitors ==> visitors[ip] == after[ip])
    ensures Current(ws, after, ip, window, maxReqs, now)
  {
  }

  /** Whatever the run, the windows of a key stay separate and within the limit, and hold exactly what
      the key was granted. */
  lemma {:induction false} RunKeepsWindows(ws: seq<Window>, visitors: Visitors, requests: seq<Request>, ip: string,
                                           past: int, maxReqs: int, window: int, maxVisitors: int)
    requires window >= 0 && Separate(ws, window, Limit(maxReqs)) && Current(ws, visitors, ip, window, maxReqs, past)
    requires InOrder(requests) && (requests != [] ==> past <= requests[0].now)
    ensures var all := RunWindows(ws, visitors, requests, ip, maxReqs, window, maxVisitors);
            && Separate(all, window, Limit(maxReqs))
            && Times(all) == Times(ws) + Granted(visitors, requests, ip, maxReqs, window, maxVisitors)
    decreases |requests|
  {
    hide Separate, Current, Decide, NextWindows, Cleaned, Times;
    if requests == [] {
      assert Times(ws) + [] == Times(ws);
    } else {
      var q := requests[0];
      var before := if q.cleanup then Cleaned(visitors, q.now, window) else visitors;
      CurrentLater(ws, visitors, ip, window, maxReqs, past, q.now);
      var (after, r) := Decide(before, q.ip, q.now, maxReqs, window, maxVisitors);
      var next := if q.ip == ip then NextWindows(ws, before, ip, q.now, maxReqs, window, maxVisitors) else ws;
      StepKeepsWindows(ws, before, q, ip, maxReqs, window, maxVisitors);
      RunKeepsWindows(next, after, requests[1..], ip, q.now, maxReqs, window, maxVisitors);
      Regroup(Times(ws), if r && q.ip == ip then [q.now] else [],
        Granted(after, requests[1..], ip, maxReqs, window, maxVisitors));
    }
  }

  lemma StepKeepsWindows(ws: seq<Window>, before: Visitors, q: Request, ip: string, maxReqs: int, window: int,
                         maxVisitors: int)
    requires window >= 0 && Separate(ws, window, Limit(maxReqs)) && Current(ws, before, ip, window, maxReqs, q.now)
    ensures var (after, r) := Decide(before, q.ip, q.now, maxReqs, window, maxVisitors);
            var next := if q.ip == ip then NextWindows(ws, before, ip, q.now, maxReqs, window, maxVisitors) else ws;
            && Separate(next, window, Limit(maxReqs)) && Current(next, after, ip, window, maxReqs, q.now)
            && Times(next) == Times(ws) + (if r && q.ip == ip then [q.now] else [])
  {
    hide Separate, Current, Decide, NextWindows, Times;
    if q.ip == ip {
      DecideKeepsWindows(ws, before, ip, q.now, maxReqs, window, maxVisitors);
    } else {
      DecideOthers(before, q.ip, q.now, maxReqs, window, maxVisitors);
      CurrentElsewhere(ws, before, Decide(before, q.ip, q.now, maxReqs, window, maxVisitors).0, ip, window, maxReqs,
        q.now);
      assert Times(ws) + [] == Times(ws);
    }
  }

  lemma Regroup(x: seq<int>, y: seq<int>, z: seq<int>)
    ensures x + y + z == x + (y + z)
  {
  }

  /** At most maxReqs requests of a key are granted in every window of every run exactly when the limit
      is at least one. */
  lemma LimitKept(maxReqs: int, window: int, maxVisitors: int)
    requires window >= 0
    ensures KeepsLimit(maxReqs, window, maxVisitors) <==> maxReqs >= 1
  {
    if maxReqs >= 1 {
      forall requests: seq<Request>, ip: string | InOrder(requests)
        ensures forall w <- RunWindows([], map[], requests, ip, maxReqs, window, maxVisitors) :: |w.times| <= maxReqs
      {
        var now := if requests == [] then 0 else requests[0].now;
        RunKeepsWindows([], map[], requests, ip, now, maxReqs, window, maxVisitors);
      }
    } else {
      var one := [Request("", 0, false)];
      assert InOrder(one);
      assert one[1..] == [];
      var w := Window(0, [0]);
      assert RunWindows([], map[], one, "", maxReqs, window, maxVisitors) == [w];
      assert w in RunWindows([], map[], one, "", maxReqs, window, maxVisitors);
    }
  }
}
