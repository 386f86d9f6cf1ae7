// The broadcast primitive parked schedule requests wait on.
module WaitQueue {

  // A Go channel nobody sends on: it is open until it is closed, once.
  class Channel {
    var closed: bool

    constructor ()
      ensures !closed
    {
      closed := false;
    }

    method Close()
      requires !closed
      modifies this
      ensures closed
    {
      closed := true;
    }
  }

  class CapacityNotifier {
    var ch: Channel

    // Every channel ever armed, oldest first; the current one is the last.
    ghost var armed: seq<Channel>

    // All armed channels but the current one are closed.
    ghost predicate Valid()
      reads this, armed
    {
      && armed != []
      && ch == armed[|armed| - 1]
      && (forall i, j :: 0 <= i < j < |armed| ==> armed[i] != armed[j])
      && (forall i :: 0 <= i < |armed| ==> (armed[i].closed <==> i < |armed| - 1))
    }

    ghost function Repr(): set<object>
      reads this
    {
      {this} + set c: object | c in armed
    }

    // The number of broadcasts so far, which names the current channel.
    ghost function Generation(): nat
      requires armed != []
      reads this
    {
      |armed| - 1
    }

    constructor ()
      ensures Valid() && Generation() == 0
      ensures fresh(Repr())
    {
      ch := new Channel();
      armed := [ch];
    }

    method WaitChan() returns (waiting: Channel)
      requires Valid()
      ensures waiting == armed[Generation()]
      ensures !waiting.closed
    {
      waiting := ch;
    }

    // Closes the channel every waiter so far may hold and arms a fresh one.
    method Broadcast()
      requires Valid()
      modifies Repr()
      ensures Valid()
      ensures fresh(Repr() - old(Repr()))
      ensures Generation() == old(Generation()) + 1
      ensures old(armed) == armed[..|armed| - 1]
    {
      ch.Close();
      ch := new Channel();
      armed := armed + [ch];
    }
  }
}
