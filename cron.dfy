/**
 * The recurrence engine the `logic` binary calls (the `cron` crate), reduced to what the core
 * uses: parsing a period string, and the first occurrence strictly after an instant. Its
 * source is not part of this model, so the engine is a parameter; instants are integers.
 */
module Cron {
  import opened Wrappers

  /**
   * `parse` stands for `Schedule::from_str` (`None` when the string is rejected); `after(p, t)`
   * for `p.after(&t).next()` (`None` when the pattern has no later occurrence).
   */
  datatype Engine<!P> = Engine(parse: string -> Option<P>, after: (P, int) -> Option<int>)

  /** The one property of the engine the model relies on: an occurrence after `t` is later than `t`. */
  ghost predicate StrictlyAfter<P(!new)>(cron: Engine<P>)
  {
    forall p, t :: cron.after(p, t).Some? ==> cron.after(p, t).value > t
  }
}
