/** The logger's critical sections, each proved to be one step of the protocol. */
module LogDriver {
  import opened Common
  import opened LogProtocol

  class Logger {
    const bufSize: nat
    var bufs: seq<Buf>
    var free: seq<nat>
    var active: Option<nat>
    var ready: seq<nat>
    var rmLock: int
    ghost var inFlight: set<nat>   // held in the ready_buf variable of some thread
    ghost var returning: set<nat>  // held in the detached_buf variable, empty
    ghost var consumer: set<nat>   // taken from the ready list

    ghost function View(): State
      reads this
    {
      State(bufSize, bufs, free, active, ready, inFlight, returning, consumer, rmLock)
    }

    constructor (bufSize: nat, n: nat)
      ensures View() == Init(bufSize, n) && Inv(View())
    {
      this.bufSize := bufSize;
      bufs, free := seq(n, i => EMPTY), seq(n, i => i);
      active, ready, rmLock := None, [], 1;
      inFlight, returning, consumer := {}, {}, {};
      new;
      InitHasInv(bufSize, n);
    }

    /** mtlk_log_get_free_buf */
    method GetFreeBuf() returns (r: Option<nat>)
      modifies this`free, this`rmLock
      ensures old(free) == [] ==> r == None && free == old(free) && rmLock == old(rmLock)
      ensures old(free) != [] ==> r == Some(old(free)[0]) && free == old(free)[1..] && rmLock == old(rmLock) + 1
    {
      if free == [] { return None; }
      r := Some(free[0]);
      free := free[1..];
      rmLock := rmLock + 1;
    }

    /** _mtlk_log_unsafe_active_buf_alloc */
    method AllocActiveBuf() returns (ok: bool)
      modifies this`free, this`rmLock, this`active
      ensures View() == AllocActive(old(View())) && ok == active.Some?
    {
      active := GetFreeBuf();
      ok := active.Some?;
    }

    /** mtlk_log_new_pkt_reserve, lines 543-546: the next `size` bytes of the active buffer */
    method TakeSpace(size: nat) returns (buf: nat, offset: nat)
      requires Inv(View()) && active.Some? && SpaceLeft(View(), active.value) >= size
      modifies this`bufs
      ensures View() == Take(old(View()), size) && active == Some(buf) && buf < |bufs| == |old(bufs)|
      ensures offset == old(bufs)[buf].dataSize && offset + size <= bufSize
      ensures bufs[buf].parts == old(bufs)[buf].parts + [Part(offset, size, true)]
    {
      buf := active.value;
      var r := bufs[buf];
      offset := r.dataSize;
      bufs := bufs[buf := r.(refcount := r.refcount + 1, dataSize := r.dataSize + size,
                             parts := r.parts + [Part(r.dataSize, size, true)])];
    }

    /** mtlk_log_new_pkt_reserve, lines 549-553: the full active buffer makes way */
    method Replace() returns (readyBuf: Option<nat>, ok: bool)
      requires Inv(View()) && active.Some?
      modifies this`free, this`rmLock, this`active, this`inFlight
      ensures View() == AllocActive(Vacate(old(View()))) && ok == active.Some?
      ensures inFlight == if readyBuf.Some? then old(inFlight) + {readyBuf.value} else old(inFlight)
    {
      readyBuf := None;
      if bufs[active.value].refcount == 0 {
        readyBuf := active;
        inFlight := inFlight + {active.value};
      }
      ok := AllocActiveBuf();
    }

    /** One round from the try_again label: space in the active buffer, or another active buffer */
    method ReserveTry(size: nat) returns (buf: Option<nat>, offset: nat, readyBuf: Option<nat>, again: bool)
      requires Inv(View()) && active.Some?
      modifies this`bufs, this`free, this`rmLock, this`active, this`inFlight
      ensures buf.Some? <==> SpaceLeft(old(View()), old(active).value) >= size
      ensures View() == if buf.Some? then Take(old(View()), size) else AllocActive(Vacate(old(View())))
      ensures buf.Some? ==> buf == active && Granted(buf.value, offset, size) && offset + size <= bufSize && readyBuf.None?
      ensures again <==> buf.None? && active.Some?
      ensures inFlight == if readyBuf.Some? then old(inFlight) + {readyBuf.value} else old(inFlight)
    {
      buf, offset, readyBuf, again := None, 0, None, false;
      if bufSize - bufs[active.value].dataSize >= size {
        var b;
        b, offset := TakeSpace(size);
        buf := Some(b);
      } else {
        readyBuf, again := Replace();
      }
    }

    /** mtlk_log_new_pkt_reserve, from the try_again label: at most one retry */
    method ReserveLoop(size: nat) returns (buf: Option<nat>, offset: nat, readyBuf: Option<nat>, tries: nat)
      requires Inv(View()) && active.Some? && size <= bufSize
      modifies this`bufs, this`free, this`rmLock, this`active, this`inFlight
      ensures (View(), buf.Some?) == ReserveActive(old(View()), size)
      ensures buf.Some? ==> buf == active && Granted(buf.value, offset, size) && offset + size <= bufSize
      ensures inFlight == if readyBuf.Some? then old(inFlight) + {readyBuf.value} else old(inFlight)
      ensures tries <= 2
    {
      ghost var s := View();
      ReplaceKeepsInv(s, size);
      var again := true;
      buf, offset, readyBuf, tries := None, 0, None, 0;
      while again
        invariant tries == 0 ==> again && View() == s && readyBuf.None? && buf.None?
        invariant tries == 1 && again ==> View() == AllocActive(Vacate(s)) && SpaceLeft(s, s.active.value) < size
        invariant again ==> tries <= 1 && active.Some? && buf.None?
        invariant !again ==> (View(), buf.Some?) == ReserveActive(s, size) && tries <= 2
        invariant buf.Some? ==> buf == active && Granted(buf.value, offset, size) && offset + size <= bufSize
        invariant inFlight == if readyBuf.Some? then s.inFlight + {readyBuf.value} else s.inFlight
        decreases again, 2 - tries
      {
        ghost var before := inFlight;
        var replaced;
        buf, offset, replaced, again := ReserveTry(size);
        tries := tries + 1;
        if replaced.Some? { readyBuf := replaced; }
      }
    }

    /** mtlk_log_new_pkt_reserve, the critical section. The caller gets a buffer and the offset at
        which it may write `size` bytes, and a buffer to queue once the lock is dropped. */
    method Reserve(size: nat) returns (buf: Option<nat>, offset: nat, readyBuf: Option<nat>, tries: nat)
      requires Inv(View()) && size <= bufSize
      modifies this`bufs, this`free, this`rmLock, this`active, this`inFlight
      ensures Inv(View()) && (View(), buf.Some?) == ReserveStep(old(View()), size)
      ensures buf.Some? ==> buf == active && Granted(buf.value, offset, size) && offset + size <= bufSize
      ensures inFlight == if readyBuf.Some? then old(inFlight) + {readyBuf.value} else old(inFlight)
      ensures tries <= 2
    {
      ghost var s := View();
      ReserveKeepsInv(s, size);
      if active.None? {
        AllocKeepsInv(s);
        var ok := AllocActiveBuf();
        if !ok { return None, 0, None, 0; }
      }
      buf, offset, readyBuf, tries := ReserveLoop(size);
    }

    /** The last reservation of a buffer is the given range, and it is open. */
    ghost predicate Granted(b: nat, offset: nat, size: nat)
      reads this
    {
      b < |bufs| && bufs[b].parts != [] && bufs[b].parts[|bufs[b].parts| - 1] == Part(offset, size, true)
    }

    /** mtlk_log_new_pkt_release, the critical section; `part` is the writer's reservation */
    method Release(b: nat, part: nat) returns (readyBuf: Option<nat>)
      requires Inv(View()) && Enabled(View(), Step.Release(b, part))
      modifies this`bufs, this`active, this`inFlight
      ensures Inv(View()) && Next(old(View()), Step.Release(b, part)) == Some(View())
      ensures inFlight == if readyBuf.Some? then old(inFlight) + {readyBuf.value} else old(inFlight)
    {
      StepKeepsInv(View(), Step.Release(b, part));
      readyBuf := None;
      bufs := bufs[b := ClosePart(bufs[b], part)];
      if bufs[b].refcount == 0 {
        if active != Some(b) {
          readyBuf := Some(b);
        } else if bufs[b].expired {
          active := None;
          readyBuf := Some(b);
        }
      }
      if readyBuf.Some? { inFlight := inFlight + {b}; }
    }

    /** log_timer, the critical section */
    method TimerTick() returns (readyBuf: Option<nat>)
      requires Inv(View())
      modifies this`bufs, this`free, this`rmLock, this`active, this`inFlight
      ensures Inv(View()) && Next(old(View()), Timer) == Some(View())
      ensures inFlight == if readyBuf.Some? then old(inFlight) + {readyBuf.value} else old(inFlight)
    {
      StepKeepsInv(View(), Timer);
      readyBuf := None;
      if active.None? { return; }
      var r := bufs[active.value];
      assert !(r.refcount == 0 && r.expired);
      if r.refcount == 0 {
        if r.dataSize == 0 { return; }
        readyBuf := active;
        inFlight := inFlight + {active.value};
        var ok := AllocActiveBuf();
      } else {
        bufs := bufs[active.value := r.(expired := true)];
      }
    }

    /** _mtlk_log_detach_active_buff, the critical section */
    method DetachActive() returns (detached: Option<nat>)
      requires Inv(View())
      modifies this`bufs, this`active, this`inFlight, this`returning
      ensures Inv(View()) && Next(old(View()), Detach) == Some(View())
      ensures detached.Some? ==> detached.value < |bufs|
      ensures detached.Some? ==> detached.value in if bufs[detached.value].dataSize > 0 then inFlight else returning
    {
      StepKeepsInv(View(), Detach);
      detached := None;
      if active.None? { return; }
      var r := bufs[active.value];
      assert !(r.refcount == 0 && r.expired);
      if r.refcount == 0 {
        detached, active := active, None;
        if r.dataSize > 0 {
          inFlight := inFlight + {detached.value};
        } else {
          returning := returning + {detached.value};
        }
      } else {
        bufs := bufs[active.value := r.(expired := true)];
      }
    }

    /** mtlk_log_put_ready_buf */
    method PutReadyBuf(b: nat)
      requires Inv(View()) && b in inFlight
      modifies this`ready, this`inFlight
      ensures Inv(View()) && Next(old(View()), PutReady(b)) == Some(View())
    {
      StepKeepsInv(View(), PutReady(b));
      ready := ready + [b];
      inFlight := inFlight - {b};
    }

    /** mtlk_log_get_ready_buf */
    method GetReadyBuf() returns (r: Option<nat>)
      requires Inv(View())
      modifies this`ready, this`consumer
      ensures Inv(View())
      ensures old(ready) == [] ==> r.None? && View() == old(View())
      ensures old(ready) != [] ==> r == Some(old(ready)[0]) && Next(old(View()), GetReady) == Some(View())
    {
      if ready == [] { return None; }
      StepKeepsInv(View(), GetReady);
      r := Some(ready[0]);
      consumer := consumer + {ready[0]};
      ready := ready[1..];
    }

    /** mtlk_log_put_free_buf, by the consumer or after detaching an empty buffer */
    method PutFreeBuf(b: nat, ghost byConsumer: bool)
      requires Inv(View()) && if byConsumer then b in consumer else b in returning
      modifies this`bufs, this`free, this`rmLock, this`returning, this`consumer
      ensures Inv(View())
      ensures Next(old(View()), if byConsumer then ConsumerPutFree(b) else PutFree(b)) == Some(View())
    {
      ghost var step := if byConsumer then ConsumerPutFree(b) else PutFree(b);
      StepKeepsInv(View(), step);
      bufs := bufs[b := bufs[b].(dataSize := 0, expired := false, parts := [])];
      free := free + [b];
      rmLock := rmLock - 1;
      if byConsumer { consumer := consumer - {b}; } else { returning := returning - {b}; }
    }
  }
}
