/**
 Vocabulary shared by both bots: who a message comes from, what the
 completion backend is sent and answers, and what the bot says back.
 */
module Types {

  /** The Telegram user id, the only key of every per-user table. */
  type UserId = int

  /** Wall-clock time in whole seconds, supplied by the caller. */
  type Time = int

  datatype Option<+T> = None | Some(value: T)

  /** The `role` field of a chat-completion message. */
  datatype Role = System | User | Assistant

  /** One `{"role": ..., "content": ...}` entry of a message list. */
  datatype Message = Message(role: Role, content: string)

  /** What the completion call did: returned the raw reply text, or raised. */
  datatype Outcome = Success(reply: string) | Failure

  /** One `reply_text` call of the bot, in the order the handler makes them. */
  datatype Notice =
    | AutoResetNotice   // history dropped after 30 minutes of silence
    | RateLimitNotice   // "Rate limit exceeded. Please wait 1 minute."
    | ThinkingNotice    // "Deep thinking in progress.."
    | Chunk(text: string)
    | ErrorNotice       // "Oops! Something went wrong."
    | ResetDoneNotice   // "/reset" found a conversation and cleared it
    | NoHistoryNotice   // "/reset" found no conversation
}
