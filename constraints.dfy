/**
 * The Jakarta Bean Validation constraints the request classes declare, as
 * predicates on a single field value. A null value satisfies every constraint
 * except @NotNull and @NotBlank, as the specification of those annotations says.
 */
module Constraints {
  import opened Wrappers
  import opened Entities

  /**
   * @NotBlank: not null and not empty after `String.trim()`, which strips every
   * character up to U+0020.
   */
  predicate NotBlank(t: Text) {
    t.Some? && exists i :: 0 <= i < |t.value| && t.value[i] > ' '
  }

  /** @Size(min, max) on a string: null, or a length within the bounds. */
  predicate Size(t: Text, min: nat, max: nat) {
    t.None? || min <= |t.value| <= max
  }

  /** @NotNull. */
  predicate NotNull<T>(o: Option<T>) {
    o.Some?
  }

  /** @Positive on a number. */
  predicate Positive(n: int) {
    n > 0
  }

  /** Adds `message` to the violations when the constraint `holds` fails. */
  function Check(holds: bool, message: string): (v: set<string>)
    ensures v == {} <==> holds
  {
    if holds then {} else {message}
  }
}
