/** The socket array of `sockets.c` in memory, and the functions that count its references. */
module SocketTable {
  import opened Bytes
  import opened Descriptors

  class Table {
    const sockets: array<Slot>
    var created: nat
    /** The references outstanding and the netconns handed out for deletion. */
    ghost var refs: seq<Ref>
    var deleted: seq<nat>

    ghost function Value(): State
      reads this, sockets
    {
      State(sockets[..], refs, created, deleted)
    }

    constructor (size: nat)
      ensures fresh(sockets) && sockets.Length == size && Initial(Value())
    {
      sockets := new Slot[size](_ => Slot(None, 0, false));
      created, refs, deleted := 0, [], [];
    }

    /** `sock_inc_used`. */
    method IncUsed(s: nat) returns (granted: bool)
      requires s < sockets.Length
      modifies this`refs, sockets
      ensures Value() == AcquireStep(old(Value()), s)
      ensures granted == !old(sockets[s].freePending)
    {
      if sockets[s].freePending {
        return false;
      }
      refs := refs + [Ref(s, sockets[s].conn)];
      sockets[s] := sockets[s].(fdUsed := sockets[s].fdUsed + 1);
      return true;
    }

    /** `free_socket_locked`: the netconn to delete, if this frees the slot. */
    method FreeSocketLocked(s: nat) returns (freed: bool, conn: Option<nat>)
      requires s < sockets.Length && sockets[s].fdUsed > 0
      modifies sockets
      ensures freed == (old(sockets[s].fdUsed) == 1)
      ensures conn == if freed then old(sockets[s].conn) else None
      ensures Value() == FreeLocked(old(Value()), s).(deleted := deleted)
      ensures FreeLocked(old(Value()), s).deleted == deleted + if conn.Some? then [conn.value] else []
    {
      sockets[s] := sockets[s].(fdUsed := sockets[s].fdUsed - 1);
      if sockets[s].fdUsed > 0 {
        sockets[s] := sockets[s].(freePending := true);
        return false, None;
      }
      conn := sockets[s].conn;
      sockets[s] := sockets[s].(conn := None);
      return true, conn;
    }

    method Delete(conn: Option<nat>)
      modifies this`deleted
      ensures deleted == old(deleted) + if conn.Some? then [conn.value] else []
    {
      if conn.Some? {
        deleted := deleted + [conn.value];
      }
    }

    /** `done_socket`, giving up reference number `r`. */
    method DoneSocket(s: nat, ghost r: nat)
      requires r < |refs| && refs[r].slot == s < sockets.Length && sockets[s].fdUsed > 0
      modifies this`refs, this`deleted, sockets
      ensures Value() == ReleaseStep(old(Value()), r)
    {
      refs := refs[..r] + refs[r + 1..];
      sockets[s] := sockets[s].(fdUsed := sockets[s].fdUsed - 1);
      if sockets[s].fdUsed == 0 && sockets[s].freePending {
        sockets[s] := sockets[s].(fdUsed := 1);
        assert sockets[..] == old(sockets[..]);
        var freed, conn := FreeSocketLocked(s);
        Delete(conn);
      }
    }

    /** `free_socket` at the end of `lwip_close`, which gives up the closer's reference number `r`. */
    method FreeSocket(s: nat, ghost r: nat)
      requires r < |refs| && refs[r].slot == s < sockets.Length && sockets[s].fdUsed > 0 && refs[r].conn.Some?
      modifies this`refs, this`deleted, sockets
      ensures Value() == Next(old(Value()), Close(r))
    {
      refs := refs[..r] + refs[r + 1..];
      assert Value() == DropRef(old(Value()), r);
      var freed, conn := FreeSocketLocked(s);
      Delete(conn);
    }

    /** `alloc_socket` for a new netconn: the first slot that has no netconn and no user left. */
    method AllocSocket() returns (fd: Option<nat>)
      modifies this, sockets
      ensures forall i :: 0 <= i < sockets.Length && (fd.Some? ==> i < fd.value) ==>
                AllocStep(old(Value()), i) == old(Value())
      ensures fd.Some? ==> fd.value < sockets.Length && AllocStep(old(Value()), fd.value) != old(Value())
      ensures Value() == if fd.Some? then AllocStep(old(Value()), fd.value) else old(Value())
    {
      for i := 0 to sockets.Length
        invariant Value() == old(Value())
        invariant forall k :: 0 <= k < i ==> AllocStep(old(Value()), k) == old(Value())
      {
        if sockets[i].conn.None? && sockets[i].fdUsed == 0 {
          sockets[i] := Slot(Some(created), 1, false);
          refs := refs + [Ref(i, Some(created))];
          created := created + 1;
          return Some(i);
        }
      }
      return None;
    }
  }
}
