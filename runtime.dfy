/**
 * What the library's C code relies on from its environment.
 *
 * `malloc` and `realloc` may fail (return NULL) on any request. Which calls fail is not
 * something the library controls, so each call is a nondeterministic choice and every
 * operation is verified for both outcomes.
 *
 * Some calls do not return normally: a loop whose state no longer changes runs forever,
 * a failing `assert` aborts, and an access outside an allocated block is undefined
 * behaviour. The model reports these as an `Exit` instead of excluding them.
 */
module Runtime {

  /** How a call ends. After `Hangs`, `AssertFails` or `Undefined`, nothing is promised about the state. */
  datatype Exit = Returns | Hangs | AssertFails | Undefined

  /** Whether one `malloc` or `realloc` request succeeds. */
  method Allocate() returns (ok: bool)
  {
    ok :| true;
  }
}
