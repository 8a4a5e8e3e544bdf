/**
 The sliding-window rate limiter.

 The limiter keeps one queue and drops from its front; the reference `Granted` keeps every accepted time and counts
 those inside the window. `QueueRefines` connects the two for every nondecreasing run of request times, and
 `WindowBound` says what the reference guarantees about every window, wherever it is placed.
 */
module RateWindows {

  /** Drop from the front what has expired. */
  function Live(queue: seq<real>, cutoff: real): seq<real> {
    if queue != [] && queue[0] <= cutoff then Live(queue[1..], cutoff) else queue
  }

  class RateWindow {
    var requests: seq<real>

    constructor ()
      ensures requests == []
    {
      requests := [];
    }

    method Accept(now: real, limit: int, seconds: real) returns (ok: bool)
      modifies this
      ensures var live := Live(old(requests), now - seconds);
              (ok <==> |live| < limit) && requests == if ok then live + [now] else live
    {
      while requests != [] && requests[0] <= now - seconds
        invariant Live(requests, now - seconds) == Live(old(requests), now - seconds)
        decreases |requests|
      {
        requests := requests[1..];
      }
      if |requests| >= limit {
        return false;
      }
      requests := requests + [now];
      return true;
    }
  }

  /** The queue after a run of requests, all accepted times, and the answers. */
  datatype Served = Served(queue: seq<real>, accepted: seq<real>, answers: seq<bool>)

  function Serve(times: seq<real>, limit: int, seconds: real): Served {
    if times == [] then Served([], [], [])
    else
      var s, now := Serve(times[..|times| - 1], limit, seconds), times[|times| - 1];
      var live := Live(s.queue, now - seconds);
      if |live| >= limit then Served(live, s.accepted, s.answers + [false])
      else Served(live + [now], s.accepted + [now], s.answers + [true])
  }

  /** The members of `g` after `cutoff`. */
  function After(g: seq<real>, cutoff: real): seq<real> {
    if g == [] then []
    else if g[|g| - 1] > cutoff then After(g[..|g| - 1], cutoff) + [g[|g| - 1]]
    else After(g[..|g| - 1], cutoff)
  }

  function UpTo(g: seq<real>, last: real): seq<real> {
    if g == [] then []
    else if g[|g| - 1] <= last then UpTo(g[..|g| - 1], last) + [g[|g| - 1]]
    else UpTo(g[..|g| - 1], last)
  }

  /** The reference: a request is granted exactly if fewer than `limit` grants lie within the window behind it. */
  function Granted(times: seq<real>, limit: int, seconds: real): seq<real> {
    if times == [] then []
    else
      var g, now := Granted(times[..|times| - 1], limit, seconds), times[|times| - 1];
      if |After(g, now - seconds)| < limit then g + [now] else g
  }

  predicate Nondecreasing(g: seq<real>) { forall i, j :: 0 <= i <= j < |g| ==> g[i] <= g[j] }

  // ---------------------------------------------------------------- filtering

  lemma {:induction false} LiveIsAfter(q: seq<real>, cutoff: real)
    requires Nondecreasing(q)
    ensures Live(q, cutoff) == After(q, cutoff)
  {
    if q != [] {
      if q[0] <= cutoff {
        LiveIsAfter(q[1..], cutoff);
        AfterFront(q, cutoff);
      } else {
        AllAfter(q, cutoff);
      }
    }
  }

  lemma {:induction false} AllAfter(q: seq<real>, cutoff: real)
    requires forall i :: 0 <= i < |q| ==> q[i] > cutoff
    ensures After(q, cutoff) == q
  {
    if q != [] {
      AllAfter(q[..|q| - 1], cutoff);
    }
  }

  lemma {:induction false} AfterFront(q: seq<real>, cutoff: real)
    requires q != [] && q[0] <= cutoff
    ensures After(q, cutoff) == After(q[1..], cutoff)
  {
    if |q| > 1 {
      var n := |q| - 1;
      AfterFront(q[..n], cutoff);
      assert q[..n][1..] == q[1..][..n - 1];
    }
  }

  lemma {:induction false} AfterMembers(q: seq<real>, cutoff: real)
    ensures |After(q, cutoff)| <= |q| && forall i :: 0 <= i < |After(q, cutoff)| ==> After(q, cutoff)[i] > cutoff
    ensures Nondecreasing(q) ==> Nondecreasing(After(q, cutoff))
    ensures Nondecreasing(q) ==> forall i :: 0 <= i < |After(q, cutoff)| ==> After(q, cutoff)[i] <= q[|q| - 1]
  {
    if q != [] {
      AfterMembers(q[..|q| - 1], cutoff);
    }
  }

  lemma {:induction false} AfterTwice(q: seq<real>, first: real, second: real)
    requires first <= second
    ensures After(After(q, first), second) == After(q, second)
  {
    if q != [] {
      AfterTwice(q[..|q| - 1], first, second);
      AfterSnoc(After(q[..|q| - 1], first), q[|q| - 1], second);
    }
  }

  lemma AfterSnoc(g: seq<real>, t: real, cutoff: real)
    ensures After(g + [t], cutoff) == if t > cutoff then After(g, cutoff) + [t] else After(g, cutoff)
  {
    assert (g + [t])[..|g|] == g;
  }

  // ---------------------------------------------------------------- the queue refines the reference

  /** The queue tells every future window as much as the full history does. */
  ghost predicate Represents(queue: seq<real>, accepted: seq<real>, last: real, seconds: real) {
    && Nondecreasing(queue)
    && (forall i :: 0 <= i < |queue| ==> queue[i] <= last)
    && forall cutoff :: last - seconds <= cutoff ==> After(queue, cutoff) == After(accepted, cutoff)
  }

  lemma StepRepresents(queue: seq<real>, accepted: seq<real>, last: real, now: real, seconds: real)
    requires Represents(queue, accepted, last, seconds) && last <= now
    ensures Live(queue, now - seconds) == After(accepted, now - seconds)
    ensures Represents(Live(queue, now - seconds), accepted, now, seconds)
    ensures Represents(Live(queue, now - seconds) + [now], accepted + [now], now, seconds)
  {
    hide Live, After;
    LiveIsAfter(queue, now - seconds);
    var live := Live(queue, now - seconds);
    AfterMembers(queue, now - seconds);
    forall cutoff | now - seconds <= cutoff
      ensures After(live, cutoff) == After(accepted, cutoff)
      ensures After(live + [now], cutoff) == After(accepted + [now], cutoff)
    {
      AfterTwice(queue, now - seconds, cutoff);
      AfterSnoc(live, now, cutoff);
      AfterSnoc(accepted, now, cutoff);
    }
  }

  lemma {:induction false} ServeRepresents(times: seq<real>, limit: int, seconds: real)
    requires Nondecreasing(times) && times != []
    ensures var s := Serve(times, limit, seconds);
            s.accepted == Granted(times, limit, seconds) && Represents(s.queue, s.accepted, times[|times| - 1], seconds)
  {
    hide Represents, Live, After;
    var n := |times| - 1;
    var s := Serve(times[..n], limit, seconds);
    if n == 0 {
      NothingYet(times[0], seconds);
      StepRepresents([], [], times[0], times[0], seconds);
    } else {
      ServeRepresents(times[..n], limit, seconds);
      StepRepresents(s.queue, s.accepted, times[n - 1], times[n], seconds);
    }
  }

  lemma NothingYet(last: real, seconds: real)
    ensures Represents([], [], last, seconds)
  {
  }

  /** The deque holds exactly the accepted times still inside the window, and every answer is the reference's. */
  lemma QueueRefines(times: seq<real>, limit: int, seconds: real)
    requires Nondecreasing(times) && times != []
    ensures var s, now, before :=
            Serve(times, limit, seconds), times[|times| - 1], Granted(times[..|times| - 1], limit, seconds);
            && s.accepted == Granted(times, limit, seconds)
            && |s.answers| == |times|
            && (s.answers[|times| - 1] <==> |After(before, now - seconds)| < limit)
            && (seconds > 0.0 ==> s.queue == After(s.accepted, now - seconds))
  {
    hide Live, Granted, After, Represents;
    var n := |times| - 1;
    var s, now := Serve(times, limit, seconds), times[n];
    ServeRepresents(times, limit, seconds);
    AnswerPerRequest(times, limit, seconds);
    var earlier := Serve(times[..n], limit, seconds);
    if n == 0 {
      GrantedNone(limit, seconds);
      NothingYet(now, seconds);
      StepRepresents([], [], now, now, seconds);
    } else {
      ServeRepresents(times[..n], limit, seconds);
      StepRepresents(earlier.queue, earlier.accepted, times[n - 1], now, seconds);
    }
    if seconds > 0.0 {
      AfterMembers(earlier.accepted, now - seconds);
      AllAfter(s.queue, now - seconds);
      SameWindow(s.queue, s.accepted, now, seconds);
    }
  }

  lemma SameWindow(queue: seq<real>, accepted: seq<real>, last: real, seconds: real)
    requires Represents(queue, accepted, last, seconds)
    ensures After(queue, last - seconds) == After(accepted, last - seconds)
  {
  }

  lemma GrantedNone(limit: int, seconds: real)
    ensures Granted([], limit, seconds) == []
  {
  }

  lemma {:induction false} AnswerPerRequest(times: seq<real>, limit: int, seconds: real)
    ensures |Serve(times, limit, seconds).answers| == |times|
  {
    if times != [] {
      AnswerPerRequest(times[..|times| - 1], limit, seconds);
    }
  }

  // ---------------------------------------------------------------- what every window holds

  lemma {:induction false} GrantedMembers(times: seq<real>, limit: int, seconds: real)
    requires Nondecreasing(times)
    ensures var g := Granted(times, limit, seconds);
            Nondecreasing(g) && (times == [] ==> g == []) && forall i :: 0 <= i < |g| ==> g[i] <= times[|times| - 1]
  {
    if times != [] {
      var n := |times| - 1;
      GrantedMembers(times[..n], limit, seconds);
    }
  }

  /** The accepted times in the half-open window of length `seconds` that ends at `end`. */
  function Window(g: seq<real>, end: real, seconds: real): seq<real> { After(UpTo(g, end), end - seconds) }

  lemma {:induction false} AfterShorter(g: seq<real>, first: real, second: real)
    requires first <= second
    ensures |After(g, second)| <= |After(g, first)|
  {
    if g != [] {
      AfterShorter(g[..|g| - 1], first, second);
    }
  }

  /** The members up to `last` of a nondecreasing sequence are all of it when the latest is. */
  lemma {:induction false} UpToAll(g: seq<real>, last: real)
    requires Nondecreasing(g) && (g != [] ==> g[|g| - 1] <= last)
    ensures UpTo(g, last) == g
  {
    if g != [] {
      UpToAll(g[..|g| - 1], last);
    }
  }

  /** One more grant at the end of the history. */
  lemma GrantBound(g: seq<real>, now: real, limit: int, seconds: real, end: real)
    requires Nondecreasing(g) && (g != [] ==> g[|g| - 1] <= now) && |After(g, now - seconds)| < limit
    requires |Window(g, end, seconds)| <= limit
    ensures |Window(g + [now], end, seconds)| <= limit
  {
    hide After, UpTo;
    if now <= end {
      assert (g + [now])[|g|] == now;
      UpToAll(g + [now], end);
      AfterSnoc(g, now, end - seconds);
      AfterShorter(g, now - seconds, end - seconds);
    } else {
      UpToSnoc(g, now, end);
    }
  }

  lemma UpToSnoc(g: seq<real>, t: real, last: real)
    requires t > last
    ensures UpTo(g + [t], last) == UpTo(g, last)
  {
    assert (g + [t])[..|g|] == g;
  }

  lemma PrefixOrdered(times: seq<real>)
    requires Nondecreasing(times) && times != []
    ensures Nondecreasing(times[..|times| - 1]) && (|times| > 1 ==> times[|times| - 2] <= times[|times| - 1])
  {
  }

  /** No window of the given length, wherever it ends, ever holds more than `limit` accepted requests. */
  lemma {:induction false} WindowBound(times: seq<real>, limit: int, seconds: real, end: real)
    requires Nondecreasing(times)
    ensures |Window(Granted(times, limit, seconds), end, seconds)| <= if limit < 0 then 0 else limit
  {
    hide After, UpTo, Window, Nondecreasing, Granted;
    if times == [] {
      GrantedNone(limit, seconds);
      EmptyWindow(end, seconds);
    } else {
      var n := |times| - 1;
      PrefixOrdered(times);
      var g, now := Granted(times[..n], limit, seconds), times[n];
      WindowBound(times[..n], limit, seconds, end);
      GrantedMembers(times[..n], limit, seconds);
      GrantedStep(times, limit, seconds);
      if |After(g, now - seconds)| < limit {
        GrantBound(g, now, limit, seconds, end);
      }
    }
  }

  lemma EmptyWindow(end: real, seconds: real)
    ensures Window([], end, seconds) == []
  {
  }

  lemma GrantedStep(times: seq<real>, limit: int, seconds: real)
    requires times != []
    ensures var g, now := Granted(times[..|times| - 1], limit, seconds), times[|times| - 1];
            Granted(times, limit, seconds) == if |After(g, now - seconds)| < limit then g + [now] else g
  {
    hide After;
  }

  /** ... and so it is for the limiter itself. */
  lemma LimiterBound(times: seq<real>, limit: int, seconds: real, end: real)
    requires Nondecreasing(times)
    ensures |Window(Serve(times, limit, seconds).accepted, end, seconds)| <= if limit < 0 then 0 else limit
  {
    WindowBound(times, limit, seconds, end);
    if times != [] {
      ServeRepresents(times, limit, seconds);
    }
  }
}
