/** The optional value the bot's handlers produce: a reply, or none. */
module Wrappers {

  datatype Option<+T> = None | Some(value: T)
}
