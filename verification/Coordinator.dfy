/** The runtime operation coordinator: a one-slot semaphore in front of a lock file. */
module Coordinator {
  import opened Sequences

  datatype Attempt = Granted(handle: nat) | Busy | Failed

  datatype Act = TryAcquire(fileFree: bool, fails: bool) | Release(handle: nat)

  class Coordinator {
    /** Whether the channel holds its token, and whether this process has locked the file. */
    var token: bool
    var locked: bool
    var active: bool
    /** Release functions handed out, and those whose `released` flag is still down. */
    var issued: nat
    var open: set<nat>

    constructor ()
      ensures Valid() && open == {}
    {
      token, locked, active, issued, open := true, false, false, 0, {};
    }

    /** One operation at a time: exactly the holder of an unreleased handle keeps token and file. */
    ghost predicate Valid()
      reads this
    {
      && (forall h :: h in open ==> h < issued)
      && (forall g, h :: g in open && h in open ==> g == h)
      && (token <==> open == {}) && (locked <==> open != {}) && (active <==> open != {})
    }

    /** TryAcquire; Acquire is this, repeated until it is granted, fails or is cancelled. */
    method TryAcquire(fileFree: bool, fails: bool) returns (attempt: Attempt)
      requires Valid()
      modifies this
      ensures Valid()
      ensures attempt.Granted? <==> old(open) == {} && fileFree && !fails
      ensures attempt.Granted? ==> open == {attempt.handle} && attempt.handle == old(issued) && issued == old(issued) + 1
      ensures !attempt.Granted? ==> open == old(open) && issued == old(issued)
      ensures attempt.Failed? <==> old(open) == {} && fails
    {
      if !token {
        return Busy;
      }
      token := false;
      if fails {
        token := true;
        return Failed;
      }
      if !fileFree {
        token := true;
        return Busy;
      }
      locked, active := true, true;
      attempt := Granted(issued);
      open, issued := open + {issued}, issued + 1;
    }

    /** The release function may be called any number of times; only its first call releases, and only its own hold. */
    method Release(handle: nat)
      requires Valid()
      modifies this
      ensures Valid() && open == old(open) - {handle} && issued == old(issued)
      ensures handle !in old(open) ==> active == old(active) && token == old(token) && locked == old(locked)
    {
      if handle in open {
        open := open - {handle};
        locked := false;
        active := false;
        token := true;
      }
    }

    /** However acquisitions and releases, repeated ones included, are interleaved, at most one operation is running. */
    method Interleave(acts: seq<Act>) returns (granted: nat)
      requires Valid() && open == {}
      modifies this
      ensures Valid() && |open| <= 1 && issued == old(issued) + granted
    {
      granted := 0;
      for i := 0 to |acts|
        invariant Valid() && issued == old(issued) + granted
      {
        match acts[i] {
          case TryAcquire(fileFree, fails) =>
            var attempt := TryAcquire(fileFree, fails);
            if attempt.Granted? {
              granted := granted + 1;
            }
          case Release(handle) =>
            Release(handle);
        }
      }
      if h :| h in open {
        assert open == {h};
      }
    }
  }
}
