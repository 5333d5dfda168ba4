/**
 The first bot: every admitted message is forwarded on its own, with a
 fixed system instruction and no memory of earlier messages. Its only
 per-user state is the rate-limit window.
 */
module StatelessBot {
  import opened Types
  import opened RateLimit
  import opened ReplyText

  const SystemPrompt: string :=
    "You are a helpful assistant. Always respond in clear plain text without any special formatting, boxes, or markdown."

  /** The state after a message, the message list sent to the backend (if any), and what the user was told. */
  datatype Step = Step(windows: map<UserId, Window>, request: Option<seq<Message>>, notices: seq<Notice>)

  /**
   `handle_message`: the quota check comes first; an admitted message
   spends its quota before the backend is called, so a failed call still
   counts.
   */
  function HandleMessage(windows: map<UserId, Window>, u: UserId, text: string, now: Time, outcome: Outcome): (st: Step)
    ensures st.request.None? <==> Exhausted(WindowOf(windows, u), now)
    ensures st.request.None? ==> st.windows == windows && st.notices == [RateLimitNotice]
    ensures st.request.Some? ==> st.request.value == [Message(System, SystemPrompt), Message(User, text)]
    ensures st.request.Some? ==> Admit(WindowOf(windows, u), now) == Allowed(WindowOf(st.windows, u))
    ensures st.request.Some? ==> st.notices == [ThinkingNotice] + Reply(outcome)
    ensures st.windows - {u} == windows - {u}
    ensures WithinLimit(windows) ==> WithinLimit(st.windows)
  {
    var gate := AdmitUser(windows, u, now);
    if !gate.admitted then Step(windows, None, [RateLimitNotice])
    else Step(gate.windows, Some([Message(System, SystemPrompt), Message(User, text)]), [ThinkingNotice] + Reply(outcome))
  }

  /**
   A live window whose quota is spent: the message is refused, nothing is
   sent and the window is untouched.
   */
  lemma DeniedLeavesWindow(windows: map<UserId, Window>, u: UserId, text: string, now: Time, outcome: Outcome)
    requires Live(WindowOf(windows, u), now) && WindowOf(windows, u).count >= RequestLimit
    ensures HandleMessage(windows, u, text, now, outcome) == Step(windows, None, [RateLimitNotice])
  {
  }

  /**
   Sixty seconds or more after the window start, the message is admitted
   into a new window starting now with count 1, whatever the backend does.
   */
  lemma ElapsedWindowAdmits(windows: map<UserId, Window>, u: UserId, text: string, now: Time, outcome: Outcome)
    requires now - WindowOf(windows, u).start >= WindowSeconds
    ensures HandleMessage(windows, u, text, now, outcome).request.Some?
    ensures HandleMessage(windows, u, text, now, outcome).windows == windows[u := Window(now, 1)]
  {
  }

  /** A failed backend call still costs the user one request of the quota. */
  lemma FailureConsumesQuota(windows: map<UserId, Window>, u: UserId, text: string, now: Time)
    requires !Exhausted(WindowOf(windows, u), now)
    ensures var w := WindowOf(HandleMessage(windows, u, text, now, Failure).windows, u);
            w.count == (if Live(WindowOf(windows, u), now) then WindowOf(windows, u).count + 1 else 1)
    ensures HandleMessage(windows, u, text, now, Failure).notices == [ThinkingNotice, ErrorNotice]
  {
  }

  /** The message list is the same whatever the user said before. */
  lemma NoHistoryKept(windows: map<UserId, Window>, u: UserId, earlier: string, text: string, t0: Time, now: Time, o0: Outcome, outcome: Outcome)
    requires !Exhausted(WindowOf(HandleMessage(windows, u, earlier, t0, o0).windows, u), now)
    ensures var after := HandleMessage(windows, u, earlier, t0, o0).windows;
            HandleMessage(after, u, text, now, outcome).request == Some([Message(System, SystemPrompt), Message(User, text)])
  {
  }
}
