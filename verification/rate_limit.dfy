/**
 The per-user request quota shared by both bots: at most `RequestLimit`
 admitted messages per fixed window of `WindowSeconds`, where a window
 starts lazily at the first message that arrives after the previous one
 has elapsed.
 */
module RateLimit {
  import opened Types

  const RequestLimit := 3
  const WindowSeconds := 60

  /** `LAST_REQUEST_TIME[u]` and `USER_REQUEST_COUNT[u]` of one user. */
  datatype Window = Window(start: Time, count: int)

  /** What the two defaultdicts yield for a user never seen: 0.0 and 0. */
  const Fresh := Window(0, 0)

  function WindowOf(windows: map<UserId, Window>, u: UserId): Window {
    if u in windows then windows[u] else Fresh
  }

  /** The window that started at `w.start` still covers `now`. */
  predicate Live(w: Window, now: Time) {
    now - w.start < WindowSeconds
  }

  /** The quota is used up for the live window. */
  predicate Exhausted(w: Window, now: Time) {
    Live(w, now) && w.count >= RequestLimit
  }

  datatype Admission = Allowed(window: Window) | Denied

  /** Every count stays between 0 and the limit. */
  predicate WithinLimit(windows: map<UserId, Window>) {
    forall u :: u in windows ==> 0 <= windows[u].count <= RequestLimit
  }

  /**
   The admission decision for one message: a live, exhausted window
   denies it and is left alone; an elapsed window restarts at `now` with
   count 0; an admitted message then adds one to the count.
   */
  function Admit(w: Window, now: Time): (a: Admission)
    ensures a.Denied? <==> Exhausted(w, now)
    ensures a.Allowed? ==> Live(a.window, now)
    ensures a.Allowed? && 0 <= w.count <= RequestLimit ==> 1 <= a.window.count <= RequestLimit
  {
    if Live(w, now) && w.count >= RequestLimit then Denied
    else
      var current := if Live(w, now) then w else Window(now, 0);
      Allowed(current.(count := current.count + 1))
  }

  datatype Gate = Gate(admitted: bool, windows: map<UserId, Window>)

  /** `Admit` applied to user `u`'s entry of the whole table. */
  function AdmitUser(windows: map<UserId, Window>, u: UserId, now: Time): (g: Gate)
    ensures g.admitted <==> !Exhausted(WindowOf(windows, u), now)
    ensures !g.admitted ==> g.windows == windows
    ensures g.admitted ==> u in g.windows && Admit(WindowOf(windows, u), now) == Allowed(g.windows[u])
    ensures g.windows - {u} == windows - {u}
    ensures WithinLimit(windows) ==> WithinLimit(g.windows)
  {
    match Admit(WindowOf(windows, u), now)
    case Denied => Gate(false, windows)
    case Allowed(w) => Gate(true, windows[u := w])
  }

  /** A live window whose quota is spent denies, and nothing moves. */
  lemma DeniedChangesNothing(w: Window, now: Time)
    requires Live(w, now) && w.count >= RequestLimit
    ensures Admit(w, now) == Denied
  {
  }

  /**
   Once `WindowSeconds` have passed since the window start (exactly 60
   included), the message is admitted into a fresh window that starts
   now and holds one request.
   */
  lemma ElapsedWindowRestarts(w: Window, now: Time)
    requires now - w.start >= WindowSeconds
    ensures Admit(w, now) == Allowed(Window(now, 1))
  {
  }

  /** A live window with quota left keeps its start and counts one more. */
  lemma LiveWindowCounts(w: Window, now: Time)
    requires Live(w, now) && w.count < RequestLimit
    ensures Admit(w, now) == Allowed(Window(w.start, w.count + 1))
  {
  }

  /**
   A user's first message is always admitted with count 1; the window
   restarts at `now` only if `now` is at least 60 past the default start 0.
   */
  lemma FirstContactAdmitted(now: Time)
    ensures Admit(Fresh, now).Allowed?
    ensures Admit(Fresh, now).window.count == 1
    ensures Admit(Fresh, now).window.start == (if now >= WindowSeconds then now else 0)
  {
  }

  /** The window after one message: unchanged if it was denied. */
  function After(w: Window, now: Time): Window {
    match Admit(w, now)
    case Denied => w
    case Allowed(next) => next
  }

  /** The admitted/denied flags of a run of messages from one user. */
  function Decisions(w: Window, times: seq<Time>): (d: seq<bool>)
    ensures |d| == |times|
    decreases |times|
  {
    if times == [] then []
    else [Admit(w, times[0]).Allowed?] + Decisions(After(w, times[0]), times[1..])
  }

  /**
   Inside one live window that already holds `w.count` admitted
   requests, exactly the first `RequestLimit - w.count` further messages
   are admitted and every later one is denied.
   */
  lemma {:induction false} LiveWindowDecisions(w: Window, times: seq<Time>)
    requires 0 <= w.count <= RequestLimit
    requires forall i :: 0 <= i < |times| ==> times[i] - w.start < WindowSeconds
    ensures forall i :: 0 <= i < |times| ==> Decisions(w, times)[i] == (i < RequestLimit - w.count)
    decreases |times|
  {
    if times != [] {
      var d := Decisions(w, times);
      var rest := times[1..];
      assert forall i :: 0 <= i < |rest| ==> rest[i] == times[i + 1];
      var next := After(w, times[0]);
      assert next == if w.count >= RequestLimit then w else Window(w.start, w.count + 1);
      LiveWindowDecisions(next, rest);
      assert forall i :: 0 < i < |times| ==> d[i] == Decisions(next, rest)[i - 1];
    }
  }

  /**
   A burst of messages that all arrive less than 60 seconds after one
   that opened a new window: the first three are admitted, every later
   one is denied.
   */
  lemma {:induction false} BurstAfterElapsedWindow(w: Window, times: seq<Time>)
    requires |times| >= 1 && times[0] - w.start >= WindowSeconds
    requires forall i :: 0 < i < |times| ==> times[i] - times[0] < WindowSeconds
    ensures forall i :: 0 <= i < |times| ==> Decisions(w, times)[i] == (i < RequestLimit)
  {
    var d := Decisions(w, times);
    var rest := times[1..];
    var started := Window(times[0], 1);
    assert Admit(w, times[0]) == Allowed(started);
    assert d == [true] + Decisions(started, rest);
    assert forall i :: 0 <= i < |rest| ==> rest[i] == times[i + 1];
    LiveWindowDecisions(started, rest);
    assert forall i :: 0 < i < |times| ==> d[i] == Decisions(started, rest)[i - 1];
  }

  /**
   A new user writing at 0, 10, 20 and 30 seconds is refused the fourth
   time; at 61 seconds the window that implicitly began at 0 has elapsed
   and a new one starts with count 1.
   */
  lemma FirstMinuteScenario()
    ensures Decisions(Fresh, [0, 10, 20, 30, 61]) == [true, true, true, false, true]
    ensures After(After(After(After(After(Fresh, 0), 10), 20), 30), 61) == Window(61, 1)
  {
    var times: seq<Time> := [0, 10, 20, 30, 61];
    assert times[1..] == [10, 20, 30, 61];
    assert times[1..][1..] == [20, 30, 61];
    assert times[1..][1..][1..] == [30, 61];
    assert times[1..][1..][1..][1..] == [61];
  }
}
