/** Values shared by the frequency table and the top-K heap. */
module Words {

  /** A table slot is either empty (a NULL pointer in the C table) or holds an entry. */
  datatype Option<T> = None | Some(value: T)

  /** One word and the number of times it has been seen (the C record `hash`). */
  datatype Entry = Entry(key: string, count: nat)

  /** The longest token the tokenizer hands to the table (the `%99[A-Za-z]` scan). */
  const MAX_WORD_LENGTH := 99

  /** A token as the tokenizer produces it: non-empty, lower-case ASCII letters only. */
  predicate IsWord(w: string)
  {
    0 < |w| <= MAX_WORD_LENGTH && forall i :: 0 <= i < |w| ==> 'a' <= w[i] <= 'z'
  }
}
