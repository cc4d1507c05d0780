/** `Cow<str>`: string content that is either borrowed from the caller or owned. */
module Cows {
  datatype Cow = Borrowed(s: seq<char>) | Owned(s: seq<char>)
}
