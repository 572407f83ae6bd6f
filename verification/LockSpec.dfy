/** What a mutex is for, without saying how: at most one owner, taken only when free. */
module LockSpec {
  datatype Lock = Free | Held(owner: nat)

  /** One step of a lock, taken by process p: nothing, p acquires the free lock, or p releases its own. */
  ghost predicate Next(a: Lock, b: Lock, p: nat) {
    a == b || (a == Free && b == Held(p)) || (a == Held(p) && b == Free)
  }
}
