/** Positions on a circle of n slots. */
module Circular {

  // The position k steps after start.
  function Wrap(start: nat, k: nat, n: nat): (i: nat)
    requires start < n && k < n
    ensures i < n
  {
    if start + k < n then start + k else start + k - n
  }

  // How many steps after start a position is.
  function Steps(start: nat, i: nat, n: nat): (k: nat)
    requires start < n && i < n
    ensures k < n && Wrap(start, k, n) == i
  {
    if i < start then i + n - start else i - start
  }

  lemma WrapIsModulo(start: nat, k: nat, n: nat)
    requires start < n && k < n
    ensures Wrap(start, k, n) == (start + k) % n
  {
  }

  // One step.
  method Advance(i: nat, n: nat) returns (next: nat)
    requires i < n
    ensures next == Wrap(i, if n == 1 then 0 else 1, n)
  {
    next := (i + 1) % n;
  }
}
