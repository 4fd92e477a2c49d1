// Types every other module uses.
module Prelude {
  datatype Option<+T> = None | Some(value: T)
  datatype Result<+T, +E> = Success(value: T) | Failure(error: E)

  // A C string value never contains its own terminator.
  const NUL: char := '\0'

  predicate IsCString(s: string) {
    NUL !in s
  }

  // How often c comes in s.
  function Occurrences(s: string, c: char): nat {
    multiset(s)[c]
  }

  lemma OccurrencesBehind(x: char, s: string, c: char)
    ensures Occurrences([x] + s, c) == Occurrences(s, c) + if x == c then 1 else 0
  {
  }

  lemma OccurrencesOfNothing(c: char)
    ensures Occurrences("", c) == 0
  {
  }
}
