/**
 The second bot: it keeps each user's conversation, sends the whole of it
 with every message, forgets it after 30 minutes of silence or on
 `/reset`, and keeps at most 20 turns after each successful exchange.

 The four module-level tables of the program are the three maps of
 `State`; a missing key reads as the table's default (`0.0`, `0`, `[]`),
 but whether a user is a key of `conversations` is observable, because
 `/reset` tests it.
 */
module MemoryBot {
  import opened Types
  import opened RateLimit
  import opened ReplyText

  const SystemPrompt: string := "You are a helpful assistant. Always reply in plain text."

  /** Seconds of silence after which the history is dropped. */
  const InactivityTimeout := 1800

  /** Turns kept after a successful exchange. */
  const MaxHistory := 20

  datatype State = State(
    windows: map<UserId, Window>,
    conversations: map<UserId, seq<Message>>,
    lastActivity: map<UserId, Time>)

  /** No user has written yet. */
  const Initial := State(map[], map[], map[])

  function HistoryOf(s: State, u: UserId): seq<Message> {
    if u in s.conversations then s.conversations[u] else []
  }

  function LastActivityOf(s: State, u: UserId): Time {
    if u in s.lastActivity then s.lastActivity[u] else 0
  }

  /** More than `InactivityTimeout` seconds since the user's last activity. */
  predicate Idle(s: State, u: UserId, now: Time) {
    now - LastActivityOf(s, u) > InactivityTimeout
  }

  /** The history is dropped, and the user told so. */
  predicate AutoResets(s: State, u: UserId, now: Time) {
    Idle(s, u, now) && HistoryOf(s, u) != []
  }

  /** The history a new message is added to: the stored one, unless it has expired. */
  function Carried(s: State, u: UserId, now: Time): seq<Message> {
    if Idle(s, u, now) then [] else HistoryOf(s, u)
  }

  /**
   The expiry check and activity refresh, which run for every message
   before the quota is looked at. An idle user's conversation becomes
   `[]` whether it was missing, empty or not.
   */
  function Touch(s: State, u: UserId, now: Time): (t: State)
    ensures HistoryOf(t, u) == Carried(s, u, now)
    ensures LastActivityOf(t, u) == now
    ensures t.windows == s.windows
    ensures u in t.conversations <==> u in s.conversations || Idle(s, u, now)
    ensures OthersUnchanged(s, t, u)
  {
    var conversations := if Idle(s, u, now) then s.conversations[u := []] else s.conversations;
    s.(conversations := conversations, lastActivity := s.lastActivity[u := now])
  }

  /**
   A second expiry check at the same moment does nothing: the first one
   has just refreshed the activity time, so the user is no longer idle.
   */
  lemma TouchIdempotent(s: State, u: UserId, now: Time)
    ensures !Idle(Touch(s, u, now), u, now)
    ensures Touch(Touch(s, u, now), u, now) == Touch(s, u, now)
  {
    var t := Touch(s, u, now);
    assert t.lastActivity[u := now] == t.lastActivity;
  }

  /**
   The last `MaxHistory` turns of `h`, in order (`h[-20:]` when longer).
   */
  function Trim(h: seq<Message>): (r: seq<Message>)
    ensures |r| == (if |h| <= MaxHistory then |h| else MaxHistory)
    ensures r == h[|h| - |r|..]
  {
    if |h| > MaxHistory then h[|h| - MaxHistory..] else h
  }

  /** The state after a message, the message list sent to the backend (if any), and what the user was told. */
  datatype Step = Step(state: State, request: Option<seq<Message>>, notices: seq<Notice>)

  /** All per-user entries of users other than `u` agree. */
  predicate OthersUnchanged(s: State, t: State, u: UserId) {
    && t.windows - {u} == s.windows - {u}
    && t.conversations - {u} == s.conversations - {u}
    && t.lastActivity - {u} == s.lastActivity - {u}
  }

  /**
   `handle_message`: expiry and activity refresh, then the quota check,
   then the user turn is stored and the whole conversation is sent. A
   successful reply is stored raw and the history trimmed; a failure
   leaves the user turn in place and trims nothing.
   */
  function HandleMessage(s: State, u: UserId, text: string, now: Time, outcome: Outcome): (st: Step)
    ensures LastActivityOf(st.state, u) == now
    ensures st.request.None? <==> Exhausted(WindowOf(s.windows, u), now)
    ensures st.request.None? ==> st.state.windows == s.windows && HistoryOf(st.state, u) == Carried(s, u, now)
    ensures st.request.Some? ==> Admit(WindowOf(s.windows, u), now) == Allowed(WindowOf(st.state.windows, u))
    ensures st.request.Some? ==>
              st.request.value == [Message(System, SystemPrompt)] + Carried(s, u, now) + [Message(User, text)]
    ensures st.request.Some? && outcome.Failure? ==>
              HistoryOf(st.state, u) == Carried(s, u, now) + [Message(User, text)]
    ensures st.request.Some? && outcome.Success? ==>
              HistoryOf(st.state, u) == Trim(Carried(s, u, now) + [Message(User, text), Message(Assistant, outcome.reply)])
    ensures OthersUnchanged(s, st.state, u)
    ensures WithinLimit(s.windows) ==> WithinLimit(st.state.windows)
  {
    var t := Touch(s, u, now);
    var gate := AdmitUser(t.windows, u, now);
    if !gate.admitted then Step(t, None, Told(s, u, now) + [RateLimitNotice])
    else
      var prior := HistoryOf(t, u);
      var kept := t.(windows := gate.windows, conversations := t.conversations[u := Record(prior, text, outcome)]);
      Step(kept, Some([Message(System, SystemPrompt)] + prior + [Message(User, text)]), Told(s, u, now) + ([ThinkingNotice] + Reply(outcome)))
  }

  /** The auto-reset notice, sent before anything else when the history expires. */
  function Told(s: State, u: UserId, now: Time): seq<Notice> {
    if AutoResets(s, u, now) then [AutoResetNotice] else []
  }

  /**
   The user is told about an auto-reset, first, exactly when a non-empty
   history has expired, whether or not the message is then refused.
   */
  lemma AutoResetNoticeIff(s: State, u: UserId, text: string, now: Time, outcome: Outcome)
    ensures var ns := HandleMessage(s, u, text, now, outcome).notices;
            (|ns| > 0 && ns[0] == AutoResetNotice) <==> AutoResets(s, u, now)
  {
    var st := HandleMessage(s, u, text, now, outcome);
    var rest := if st.request.None? then [RateLimitNotice] else [ThinkingNotice] + Reply(outcome);
    assert st.notices == Told(s, u, now) + rest;
    assert st.notices[0] == if AutoResets(s, u, now) then AutoResetNotice else rest[0];
  }

  /**
   The conversation once the backend has answered: the user turn is
   always kept; a reply is stored raw, uncleaned, and the history
   trimmed; a failure stores nothing more and trims nothing.
   */
  function Record(prior: seq<Message>, text: string, outcome: Outcome): (h: seq<Message>)
    ensures outcome.Failure? ==> |h| == |prior| + 1 && h[..|prior|] == prior && h[|prior|] == Message(User, text)
    ensures outcome.Success? ==>
              && |h| == Min(|prior| + 2, MaxHistory)
              && h[|h| - 2..] == [Message(User, text), Message(Assistant, outcome.reply)]
              && h[..|h| - 2] == prior[|prior| - (|h| - 2)..]
  {
    var asked := prior + [Message(User, text)];
    match outcome
    case Failure => asked
    case Success(reply) =>
      assert asked + [Message(Assistant, reply)] == prior + [Message(User, text), Message(Assistant, reply)];
      Trim(asked + [Message(Assistant, reply)])
  }

  /**
   `/reset`: a user who is a key of the conversation table gets an empty
   history and a fresh activity time; anyone else is told there is
   nothing to reset and nothing changes. Quotas are never touched.
   */
  function Reset(s: State, u: UserId, now: Time): (st: Step)
    ensures st.request.None?
    ensures u in s.conversations ==>
              u in st.state.conversations && HistoryOf(st.state, u) == [] && LastActivityOf(st.state, u) == now
              && st.notices == [ResetDoneNotice]
    ensures u !in s.conversations ==> st.state == s && st.notices == [NoHistoryNotice]
    ensures st.state.windows == s.windows
    ensures st.state.conversations.Keys == s.conversations.Keys
    ensures OthersUnchanged(s, st.state, u)
  {
    if u in s.conversations then
      Step(s.(conversations := s.conversations[u := []], lastActivity := s.lastActivity[u := now]), None, [ResetDoneNotice])
    else Step(s, None, [NoHistoryNotice])
  }

  /**
   What the program keeps true between messages: counts stay within the
   limit, and anyone who has spent quota has a conversation entry.
   */
  predicate Valid(s: State) {
    && WithinLimit(s.windows)
    && forall v :: v in s.windows && s.windows[v].count > 0 ==> v in s.conversations
  }

  lemma InitialValid()
    ensures Valid(Initial)
  {
  }

  /** Every message keeps the state valid, and leaves its sender a key of the conversation table. */
  lemma HandleMessageKeepsValid(s: State, u: UserId, text: string, now: Time, outcome: Outcome)
    requires Valid(s)
    ensures Valid(HandleMessage(s, u, text, now, outcome).state)
    ensures u in HandleMessage(s, u, text, now, outcome).state.conversations
  {
    var st := HandleMessage(s, u, text, now, outcome);
    if st.request.None? {
      assert u in s.windows && s.windows[u].count > 0;
    }
  }

  lemma ResetKeepsValid(s: State, u: UserId, now: Time)
    requires Valid(s)
    ensures Valid(Reset(s, u, now).state)
  {
  }

  /**
   Once a user has sent any message, `/reset` reports a reset, even when
   the history is already empty (say, right after another `/reset`).
   */
  lemma ResetAfterAnyMessage(s: State, u: UserId, text: string, now: Time, outcome: Outcome, later: Time)
    requires Valid(s)
    ensures var after := HandleMessage(s, u, text, now, outcome).state;
            Reset(after, u, later).notices == [ResetDoneNotice]
            && Reset(Reset(after, u, later).state, u, later).notices == [ResetDoneNotice]
  {
    HandleMessageKeepsValid(s, u, text, now, outcome);
  }

  /**
   A refused message still refreshes the activity time and would still
   expire the history, because both happen before the quota check. The
   two premises can only meet when the clock has gone backwards by more
   than `InactivityTimeout - WindowSeconds` seconds: on a clock that never
   goes back, `RefusalKeepsHistory` shows a refusal never expires anything.
   */
  lemma DeniedStillExpires(s: State, u: UserId, text: string, now: Time, outcome: Outcome)
    requires Exhausted(WindowOf(s.windows, u), now)
    requires AutoResets(s, u, now)
    ensures var st := HandleMessage(s, u, text, now, outcome);
            && st.notices == [AutoResetNotice, RateLimitNotice]
            && HistoryOf(st.state, u) == []
            && LastActivityOf(st.state, u) == now
            && st.state.windows == s.windows
  {
  }

  /**
   The order between the timestamps the program records, up to `clock`,
   the latest time seen: a window starts at a message that also refreshed
   the activity time, so whoever has a window has an activity time no
   earlier than its start; no recorded time lies after `clock`; and
   `clock`, seconds since the epoch, is not negative.
   */
  predicate ClockOrdered(s: State, clock: Time) {
    && 0 <= clock
    && (forall v :: v in s.windows ==> v in s.lastActivity && s.windows[v].start <= s.lastActivity[v])
    && (forall v :: v in s.lastActivity ==> s.lastActivity[v] <= clock)
  }

  lemma InitialClockOrdered(clock: Time)
    requires 0 <= clock
    ensures ClockOrdered(Initial, clock)
  {
  }

  /** A message handled at `now`, no earlier than any time recorded so far, keeps the timestamps ordered. */
  lemma HandleMessageKeepsClock(s: State, u: UserId, text: string, now: Time, outcome: Outcome, clock: Time)
    requires ClockOrdered(s, clock) && clock <= now
    ensures ClockOrdered(HandleMessage(s, u, text, now, outcome).state, now)
  {
    var t := HandleMessage(s, u, text, now, outcome).state;
    forall v | v in t.windows
      ensures v in t.lastActivity && t.windows[v].start <= t.lastActivity[v]
    {
      if v != u {
        assert v in t.windows - {u} && t.windows[v] == s.windows[v];
        assert v in s.lastActivity - {u} && t.lastActivity[v] == s.lastActivity[v];
      } else if u in s.windows {
        assert s.windows[u].start <= s.lastActivity[u] <= clock;
      }
    }
    forall v | v in t.lastActivity
      ensures t.lastActivity[v] <= now
    {
      if v != u {
        assert v in t.lastActivity - {u};
      }
    }
  }

  /** `/reset` at `now`, no earlier than any time recorded so far, keeps the timestamps ordered. */
  lemma ResetKeepsClock(s: State, u: UserId, now: Time, clock: Time)
    requires ClockOrdered(s, clock) && clock <= now
    ensures ClockOrdered(Reset(s, u, now).state, now)
  {
  }

  /**
   On a clock that never goes back, a user whose quota is spent wrote
   less than `WindowSeconds` ago, so is never idle: a refused message
   leaves the history alone, tells the user only about the quota, and
   moves the activity time forward by less than a minute.
   */
  lemma RefusalKeepsHistory(s: State, u: UserId, text: string, now: Time, outcome: Outcome, clock: Time)
    requires ClockOrdered(s, clock) && clock <= now
    requires Exhausted(WindowOf(s.windows, u), now)
    ensures !Idle(s, u, now)
    ensures var st := HandleMessage(s, u, text, now, outcome);
            && st.notices == [RateLimitNotice]
            && HistoryOf(st.state, u) == HistoryOf(s, u)
            && 0 <= now - LastActivityOf(s, u) < WindowSeconds
  {
    assert u in s.windows && u in s.lastActivity;
  }

  /**
   A successful exchange leaves at most `MaxHistory` turns, exactly that
   many once enough have accumulated, ending with the user's text and
   then the reply as the backend sent it, before any cleaning.
   */
  lemma SuccessKeepsRecentTurns(s: State, u: UserId, text: string, now: Time, reply: string)
    requires !Exhausted(WindowOf(s.windows, u), now)
    ensures var h := HistoryOf(HandleMessage(s, u, text, now, Success(reply)).state, u);
            && |h| <= MaxHistory
            && (|Carried(s, u, now)| + 2 >= MaxHistory ==> |h| == MaxHistory)
            && |h| >= 2 && h[|h| - 2] == Message(User, text) && h[|h| - 1] == Message(Assistant, reply)
  {
    var full := Carried(s, u, now) + [Message(User, text), Message(Assistant, reply)];
    var h := HistoryOf(HandleMessage(s, u, text, now, Success(reply)).state, u);
    assert h == full[|full| - |h|..];
    assert h[|h| - 1] == full[|full| - 1];
    assert h[|h| - 2] == full[|full| - 2];
  }

  /**
   A failed exchange adds the user turn without trimming, so a full
   history grows past `MaxHistory`.
   */
  lemma FailureOverflowsHistory(s: State, u: UserId, text: string, now: Time)
    requires !Exhausted(WindowOf(s.windows, u), now)
    requires |Carried(s, u, now)| >= MaxHistory
    ensures |HistoryOf(HandleMessage(s, u, text, now, Failure).state, u)| == |Carried(s, u, now)| + 1
    ensures |HistoryOf(HandleMessage(s, u, text, now, Failure).state, u)| > MaxHistory
  {
  }

  /**
   Trimming twice is trimming once: the history kept after a successful
   exchange is the last `MaxHistory` turns of everything added since it
   last expired or was reset, whatever was trimmed on the way.
   */
  lemma TrimAbsorbs(h: seq<Message>, more: seq<Message>)
    ensures Trim(Trim(h) + more) == Trim(h + more)
  {
    if |h| > MaxHistory {
      var t := h[|h| - MaxHistory..];
      var a := Trim(t + more);
      var b := Trim(h + more);
      assert |a| == MaxHistory == |b|;
      forall i | 0 <= i < MaxHistory
        ensures a[i] == b[i]
      {
        var k := |more| + i;
        assert a[i] == (t + more)[k];
        assert b[i] == (h + more)[|h| - MaxHistory + k];
        if k < MaxHistory {
          assert (t + more)[k] == t[k] == h[|h| - MaxHistory + k];
        }
      }
    }
  }

  /** One inbound text message, with the time it arrived and what the backend will do with it. */
  datatype Incoming = Incoming(user: UserId, text: string, at: Time, outcome: Outcome)

  /** The arrival times of `u`'s messages, in order. */
  function TimesOf(msgs: seq<Incoming>, u: UserId): seq<Time>
    decreases |msgs|
  {
    if msgs == [] then []
    else (if msgs[0].user == u then [msgs[0].at] else []) + TimesOf(msgs[1..], u)
  }

  /** Whether each of `u`'s messages was admitted, when `msgs` are handled one after another. */
  function AdmittedOf(s: State, msgs: seq<Incoming>, u: UserId): seq<bool>
    decreases |msgs|
  {
    if msgs == [] then []
    else
      var m := msgs[0];
      var st := HandleMessage(s, m.user, m.text, m.at, m.outcome);
      (if m.user == u then [st.request.Some?] else []) + AdmittedOf(st.state, msgs[1..], u)
  }

  /**
   In a stream of messages from many users, user `u`'s messages are
   admitted exactly as the rate limiter alone would admit `u`'s arrival
   times: other users' traffic, the conversation state and the backend's
   answers make no difference.
   */
  lemma {:induction false} AdmissionsPerUser(s: State, msgs: seq<Incoming>, u: UserId)
    ensures AdmittedOf(s, msgs, u) == Decisions(WindowOf(s.windows, u), TimesOf(msgs, u))
    decreases |msgs|
  {
    if msgs != [] {
      var m := msgs[0];
      var st := HandleMessage(s, m.user, m.text, m.at, m.outcome);
      var rest := msgs[1..];
      AdmissionsPerUser(st.state, rest, u);
      WindowAfterMessage(s, m.user, m.text, m.at, m.outcome, u);
      var w := WindowOf(s.windows, u);
      if m.user == u {
        var ts := TimesOf(msgs, u);
        assert ts == [m.at] + TimesOf(rest, u);
        assert ts[0] == m.at && ts[1..] == TimesOf(rest, u);
        assert AdmittedOf(s, msgs, u) == [st.request.Some?] + AdmittedOf(st.state, rest, u);
        assert Decisions(w, ts) == [Admit(w, m.at).Allowed?] + Decisions(After(w, m.at), TimesOf(rest, u));
      } else {
        assert TimesOf(msgs, u) == TimesOf(rest, u);
        assert AdmittedOf(s, msgs, u) == AdmittedOf(st.state, rest, u);
      }
    }
  }

  /** The message of user `v` moves `u`'s window only if `v` is `u`, and then as the rate limiter says. */
  lemma WindowAfterMessage(s: State, v: UserId, text: string, now: Time, outcome: Outcome, u: UserId)
    ensures var st := HandleMessage(s, v, text, now, outcome);
            && (v == u ==> st.request.Some? == Admit(WindowOf(s.windows, u), now).Allowed?)
            && WindowOf(st.state.windows, u) == if v == u then After(WindowOf(s.windows, u), now) else WindowOf(s.windows, u)
  {
    var st := HandleMessage(s, v, text, now, outcome);
    if v != u {
      assert u in st.state.windows <==> u in s.windows;
      assert u in s.windows ==> st.state.windows[u] == (st.state.windows - {v})[u];
    }
  }
}
