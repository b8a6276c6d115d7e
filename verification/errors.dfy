/** The fatal conditions of the reducer; each aborts the whole run. */
module ProfileErrors {

  datatype ProfileError =
      /** A profiling index declared twice (the `assert(False)` after the message). */
    | DuplicateIndex(index: string, firstTag: string, secondTag: string)
      /** A `Profile i, v` line whose index was never declared (KeyError). */
    | UnknownIndex(index: string)
      /** A `start_X` tag in frame `frame` with no `end_X` tag (KeyError). */
    | MissingEnd(frame: nat, endTag: string)
      /**
       * Frame `frame` has elapsed entries but a total of 0, so the percentage
       * of its first entry divides by zero (ZeroDivisionError).
       */
    | ZeroTotal(frame: nat)
      /**
       * No frame was finalized, so the worst case is still the empty tuple
       * and indexing it fails (IndexError).
       */
    | NoFrames
      /**
       * No frame had an init value, so the init value is still the empty
       * tuple, which cannot be formatted with a width (TypeError).
       */
    | InitUnset
}
