/** The label matcher: exact key/value subset test between two label maps. */
module Helpers {
  import opened Types

  /** Every needed key is present in `given` with an equal value. */
  predicate SubMap(needed: Labels, given: Labels) {
    forall k :: k in needed ==> k in given && given[k] == needed[k]
  }

  /**
   * `LabelsMatch`: visits the needed keys in an arbitrary order (Go's map
   * iteration order is unspecified) and only ever clears the flag, never
   * exits early. The postcondition holds for every visiting order.
   */
  method LabelsMatch(needed: Labels, given: Labels) returns (matches: bool)
    ensures matches <==> SubMap(needed, given)
  {
    matches := true;
    var pending := needed.Keys;
    while pending != {}
      invariant pending <= needed.Keys
      invariant matches <==> forall k :: k in needed && k !in pending ==> k in given && given[k] == needed[k]
      decreases pending
    {
      var key :| key in pending;
      if key in given {
        if given[key] != needed[key] {
          matches := false;
        }
      } else {
        matches := false;
      }
      pending := pending - {key};
    }
  }

  /** The empty requirement matches every label map, the empty one included. */
  lemma EmptySelectorMatchesAll(given: Labels)
    ensures SubMap(map[], given)
  {
  }

  /** A needed key missing from `given` forces a non-match. */
  lemma MissingKeyFails(needed: Labels, given: Labels, key: string)
    requires key in needed && key !in given
    ensures !SubMap(needed, given)
  {
  }

  /** A needed key present with another value forces a non-match. */
  lemma DifferentValueFails(needed: Labels, given: Labels, key: string)
    requires key in needed && key in given && given[key] != needed[key]
    ensures !SubMap(needed, given)
  {
  }

  /** Adding labels to `given` under new keys never turns a match into a non-match. */
  lemma ExtraLabelsIgnored(needed: Labels, given: Labels, extra: Labels)
    requires extra.Keys !! given.Keys
    ensures SubMap(needed, given) ==> SubMap(needed, given + extra)
  {
  }
}
