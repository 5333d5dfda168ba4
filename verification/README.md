# tars_bot core in Dafny

tars_bot is a Telegram chat bot that forwards each user's text messages to
a chat-completion backend and shows the answers. It comes in two versions:

- `bot.py` sends every message with no memory of earlier ones (`StatelessBot`).
- `bot2.0.py` keeps a per-user conversation, forgets it after 30 minutes of
  silence or on `/reset`, and trims it after each successful exchange
  (`MemoryBot`).

Both share a per-user quota: 3 requests per 60-second window (`RateLimit`).
Both clean every reply by deleting `\boxed{` and `}`, then cut it into pieces
of at most 4096 characters (`ReplyText`). `Types` holds the shared
vocabulary: roles, messages, backend outcomes, and the messages the bot
sends back.

The model is pure functions over immutable state.

- Each handler takes the current tables, the user id, the text, the time
  `now` and the backend's `Outcome`.
- `Outcome` is either `Success(reply)` or `Failure` (the call raised).
- Each handler returns the new tables, the message list it sent to the
  backend (`None` when the quota refused the message), and the ordered list
  of notices the user sees.
- The user-facing texts are constructors of `Notice`. The replies themselves
  are `Chunk(text)`.

Points where the code is easy to misread; the model follows the code:

- Inactivity expiry and the activity refresh run before the quota check. A
  refused message therefore still refreshes the activity time. It would
  also clear an expired history, but that needs the clock to go backwards.
  While the clock never goes back, a user whose quota is spent has written
  within the last minute, so a refusal never expires anything
  (`MemoryBot.RefusalKeepsHistory`).
- `/reset` tests whether the user is a key of the conversation table, not
  whether the history is non-empty. Every user who has sent any message has
  a key, because the `defaultdict` lookup and the append both create it. So
  `/reset` reports a reset even when the history is already empty.
- The history is trimmed only after a successful exchange. A failed call
  leaves the user turn in place, so the history can grow past 20 entries.
- The comment in the code speaks of "20 exchanges", but the code keeps the
  last 20 entries, that is 10 user/assistant pairs. The model keeps 20 entries.
- A window that has elapsed restarts at the current message, not at a fixed
  boundary. A new user's window is taken to start at time 0.

## Model

| member | source | states |
|---|---|---|
| RateLimit.Admit | bot2.0.py:76-84 | A message is denied exactly when the window is live and already holds 3 requests. An admitted message leaves a live window whose count is between 1 and 3, provided the old count was in range. |
| RateLimit.AdmitUser | bot.py:49-57 | User `u` is admitted exactly when their window is not exhausted. On denial the table is unchanged; on admission `u`'s entry becomes the admitted window. Every other user's entry is untouched. All counts stay within the limit. |
| RateLimit.DeniedChangesNothing | bot.py:49-52 | A live window with 3 or more requests denies, and the window is unchanged. |
| RateLimit.ElapsedWindowRestarts | bot.py:53-57 | Once 60 seconds or more have passed since the window start (exactly 60 included), the message is admitted into a window that starts now and holds count 1. |
| RateLimit.LiveWindowCounts | bot.py:49-57 | A live window with quota left keeps its start time and counts one more request. |
| RateLimit.FirstContactAdmitted | bot.py:22-57 | A never-seen user (defaults 0.0 and 0) is always admitted with count 1. The window restarts at `now` only if `now` is at least 60. |
| RateLimit.LiveWindowDecisions | bot.py:49-57 | Within one live window holding `c` requests, exactly the next `3 - c` messages are admitted and every later one is denied. |
| RateLimit.BurstAfterElapsedWindow | bot.py:49-57 | For messages arriving less than 60 seconds after one that opened a new window, the first three are admitted and all the rest are denied. |
| RateLimit.FirstMinuteScenario | bot2.0.py:76-84 | A new user writing at 0, 10, 20, 30 and 61 seconds is admitted, admitted, admitted, denied, admitted. The user ends in a window that starts at 61 with count 1. |
| ReplyText.RemoveAll | bot2.0.py:110 | Deleting a pattern never lengthens the text. |
| ReplyText.RemoveAllOnlyDeletes | bot2.0.py:110 | `replace(pat, "")` only deletes: the result's characters are a sub-multiset of the input's. |
| ReplyText.RemoveAllAbsent | bot2.0.py:110 | Text in which the pattern never occurs is returned unchanged. |
| ReplyText.RemoveAllLeftmost | bot2.0.py:110 | The leftmost occurrence is deleted, everything before it is kept verbatim, and scanning resumes after the occurrence. |
| ReplyText.RemoveAllCharGone | bot2.0.py:110 | Deleting a one-character pattern leaves no occurrence of that character. |
| ReplyText.Clean | bot.py:83 | The cleaned reply contains no `}`, is no longer than the raw reply, and holds only characters of it. |
| ReplyText.CleanPlainText | bot2.0.py:110 | A reply with no `\boxed{` and no `}` is shown unchanged. |
| ReplyText.CleanCanAssembleBoxedOpen | bot2.0.py:110 | Cleaning `\b}oxed{` yields `\boxed{`, so a cleaned reply can still contain the box opener, and cleaning is not idempotent. |
| ReplyText.Chunks | bot2.0.py:113-116 | The pieces join back to the cleaned text. Each piece is non-empty and at most 4096 long, and all but the last are exactly 4096. Empty text gives no pieces. |
| ReplyText.ChunkCount | bot.py:86-89 | There are `ceil(len / 4096)` pieces, one per step of `range(0, len, 4096)`. |
| ReplyText.ChunksAreRangeSlices | bot.py:87-88 | Piece `k` is the slice `s[k*n : k*n+n]`, clipped at the end of the text. |
| ReplyText.Shown | bot2.0.py:110-116 | Every message displaying a reply is a chunk with no `}`, holding between 1 and 4096 characters. |
| ReplyText.ShownIsRangeLoop | bot2.0.py:110-116 | The displayed messages are exactly the loop's slices of the cleaned reply, one per step of the `range`. |
| StatelessBot.HandleMessage | bot.py:44-102 | A message is refused exactly when the quota is exhausted; then it gets only the rate-limit notice and no state changes. Otherwise the backend receives the fixed system prompt and the user text, the window advances as the rate limiter says, and the user sees the thinking notice followed by the reply or the error. Other users are untouched. |
| StatelessBot.DeniedLeavesWindow | bot.py:49-52 | An exhausted live window yields only the rate-limit notice, and no state changes. |
| StatelessBot.ElapsedWindowAdmits | bot.py:53-57 | After the window elapses, a message is sent whatever the backend does, and the user's window becomes (now, 1). |
| StatelessBot.FailureConsumesQuota | bot.py:57-102 | A failed backend call still spends one request of the quota. The user sees the thinking notice and then the error. |
| StatelessBot.NoHistoryKept | bot.py:68-77 | The second message's request holds only the system prompt and that message, whatever was said before. |
| MemoryBot.Touch | bot2.0.py:67-73 | After the expiry check, the history is empty if the user was idle for more than 1800 seconds, otherwise unchanged. The activity time is now. Quotas are untouched. The user becomes a conversation key exactly when idle or already a key. Every other user's entries are unchanged. |
| MemoryBot.TouchIdempotent | bot2.0.py:67-73 | Right after the expiry check the user is not idle, so a second check at the same moment changes nothing. |
| MemoryBot.Trim | bot2.0.py:119-121 | The kept history is the last `min(len, 20)` entries, in order. |
| MemoryBot.Record | bot2.0.py:86-121 | On failure the stored history is the prior one, unchanged, followed by the user turn. On success it holds `min(len(prior) + 2, 20)` entries. It ends with the user turn and the raw reply, preceded by the most recent prior turns in order. |
| MemoryBot.HandleMessage | bot2.0.py:62-133 | The activity time becomes now, and the message is refused exactly when the quota is exhausted. A refused message keeps the quotas and leaves the post-expiry history. An admitted message sends the system prompt, the carried history and the user text, then stores the history shaped by the outcome. Other users are untouched, and counts stay within the limit. |
| MemoryBot.Reset | bot2.0.py:52-60 | A user who is a conversation key gets an empty history, a fresh activity time and the reset-done notice. Anyone else gets the no-history notice, and nothing changes. Quotas and the set of keys are never changed. |
| MemoryBot.InitialValid | bot2.0.py:22-29 | The empty tables satisfy the state invariant. |
| MemoryBot.HandleMessageKeepsValid | bot2.0.py:67-87 | Every message keeps counts within the limit, keeps every user with spent quota as a conversation key, and leaves the sender a key. |
| MemoryBot.ResetKeepsValid | bot2.0.py:52-60 | `/reset` preserves the state invariant. |
| MemoryBot.ResetAfterAnyMessage | bot2.0.py:55-58 | After any message, `/reset` reports a reset, and so does a second `/reset` straight after, on an already empty history. |
| MemoryBot.AutoResetNoticeIff | bot2.0.py:67-70 | The first notice is the auto-reset notice exactly when the user was idle for more than 1800 seconds with a non-empty history. |
| MemoryBot.DeniedStillExpires | bot2.0.py:67-79 | If a refused message meets an expired, non-empty history, it still clears it and refreshes the activity time. The user sees the auto-reset notice, then the rate-limit notice. This can only happen after the clock has gone backwards. |
| MemoryBot.InitialClockOrdered | bot2.0.py:23-29 | Empty tables satisfy the timestamp ordering, for any non-negative clock. |
| MemoryBot.HandleMessageKeepsClock | bot2.0.py:67-84 | A message handled no earlier than every recorded time keeps the ordering. Every window holder has an activity time no earlier than its window start, and no recorded time lies in the future. |
| MemoryBot.ResetKeepsClock | bot2.0.py:52-60 | `/reset` handled no earlier than every recorded time keeps the timestamp ordering. |
| MemoryBot.RefusalKeepsHistory | bot2.0.py:67-79 | While the clock does not go back, a refused user is never idle. The refusal leaves the history unchanged, shows only the rate-limit notice, and the user's previous activity was less than 60 seconds earlier. |
| MemoryBot.SuccessKeepsRecentTurns | bot2.0.py:87-121 | After a successful exchange the history has at most 20 entries, and exactly 20 once enough have accumulated. It ends with the user text and then the raw, uncleaned reply. |
| MemoryBot.FailureOverflowsHistory | bot2.0.py:87-133 | A failed exchange on a full history grows it to more than 20 entries. |
| MemoryBot.TrimAbsorbs | bot2.0.py:119-121 | Trimming an intermediate history changes nothing: the result equals trimming the whole sequence of turns once. |
| MemoryBot.WindowAfterMessage | bot2.0.py:75-84 | A message moves only its sender's window, exactly as the rate limiter says. |
| MemoryBot.AdmissionsPerUser | bot2.0.py:62-84 | In any interleaving of many users' messages, a user's messages are admitted exactly as the rate limiter alone decides from that user's arrival times. |

## Left out

- Telegram wiring is not modelled: the `/start` welcome text, handler registration, polling and `main`. None of it affects the state.
- The user-facing texts are not modelled. Each is a `Notice` constructor, because only which message is sent, and in what order, matters to the state.
- The completion call is not modelled: model name, headers and client set-up. It becomes the `Outcome` parameter.
- A reply whose content is `None` is not modelled, because the model has no value for it. The source would store `None` in the history and then raise inside `replace`.
- An exception raised after some chunks have been sent is not modelled; there is no model of a partial display. `Failure` stands for a call that raised before any part of the reply was displayed; the thinking notice has already been shown.
- `time.time()` floats are whole seconds in the model: `now` is an integer supplied by the caller.
- The one-second `time.sleep` between chunks, logging and environment loading are left out; they do not affect the state.
- Concurrent handler runs are not modelled. The handlers are modelled as running one after another. The source awaits between reading and writing the tables, so interleavings are possible there.
- `bot.py` has no `/reset` and no history, so `StatelessBot` has neither.
- Python's `str.replace` is modelled only for the two non-empty patterns the bot uses. The empty-pattern case never arises.
