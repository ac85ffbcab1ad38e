/** The optional value used wherever the bot's data may be absent (a NULL column, a missing row). */
module Wrappers {
  datatype Option<+T> = None | Some(value: T)
}
