/** The retention rule: which events a cleanup deletes. */
module Retention {
  import opened Rollup

  /** `ts < datetime(cutoff) AND (not uploading OR id <= cursor)`. */
  predicate Expired(e: Event, cutoff: int, uploadEnabled: bool, cursor: int) {
    !TextWindow(e, cutoff) && (!uploadEnabled || e.id <= cursor)
  }

  function Retained(es: set<Event>, cutoff: int, uploadEnabled: bool, cursor: int): set<Event> {
    set e | e in es && !Expired(e, cutoff, uploadEnabled, cursor)
  }
}
