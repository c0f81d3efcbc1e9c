/** A stream of extension/lib/smux.js as the object it is there: StreamState and Stream
    in one, with the fields they update. Every method is proved to take the step that
    SmuxWrite and SmuxFlow reason about. */
module SmuxStream {
  import opened Common
  import opened SmuxWrite
  import opened SmuxFlow

  /** So many turns, one after the other. */
  function Turns(s: WriteSide, n: nat): WriteSide {
    Iterate(Turn, s, n)
  }

  function RunTimes(n: nat): seq<Event> {
    if n == 0 then [] else RunTimes(n - 1) + [Run]
  }

  lemma TurnsThen(s: WriteSide, a: nat, t: WriteSide, b: nat, u: WriteSide)
    requires t == Turns(s, a) && u == Turns(t, b)
    ensures u == Turns(s, a + b)
  {
    IterateAdd(Turn, s, a, b);
  }

  lemma OneTurn(s: WriteSide)
    ensures Turns(s, 1) == Turn(s)
  {
    assert Iterate(Turn, s, 0) == s;
  }

  lemma RunTimesMore(es: seq<Event>, n: nat)
    ensures es + RunTimes(0) == es
    ensures es + RunTimes(n + 1) == (es + RunTimes(n)) + [Run]
  {
  }

  /** Turns are runs of the stream's events, so what holds in every run holds of them. */
  lemma {:induction false} TurnsAreARun(es: seq<Event>, n: nat)
    ensures ExecAll(es + RunTimes(n)) == Turns(ExecAll(es), n)
  {
    var s := ExecAll(es);
    var k := 0;
    RunTimesMore(es, 0);
    while k < n
      invariant 0 <= k <= n && ExecAll(es + RunTimes(k)) == Turns(s, k)
    {
      OneMoreTurn(es + RunTimes(k), s, k);
      RunTimesMore(es, k);
      k := k + 1;
    }
  }

  lemma OneMoreTurn(es: seq<Event>, s: WriteSide, n: nat)
    requires ExecAll(es) == Turns(s, n)
    ensures ExecAll(es + [Run]) == Turns(s, n + 1)
  {
    ExecAllThen(es, Run);
  }

  class Stream {
    // the write side
    var closed: bool
    var closing: bool
    var remoteClosed: bool
    var writerWaits: bool
    var removed: bool
    var sessionClosed: bool
    var numWritten: nat
    var peerConsumed: nat
    var peerWindow: nat
    var writeTail: seq<Task>
    // the read side
    var readQueue: seq<seq<byte>>
    var readerWaits: bool
    var resolved: seq<seq<byte>>
    var numRead: nat
    var updIncr: nat
    // what left the stream: frames to the session's output, chunks to the reads
    ghost var out: seq<Frame>
    ghost var accepted: seq<seq<byte>>
    ghost var given: seq<byte>
    ghost var upds: seq<nat>

    ghost function Writing(): WriteSide
      reads this
    {
      WriteSide(closed, closing, remoteClosed, writerWaits, removed, sessionClosed,
                numWritten, peerConsumed, peerWindow, writeTail, out, accepted)
    }

    ghost function Reading(): ReadSide
      reads this
    {
      ReadSide(readQueue, readerWaits, resolved, closed, remoteClosed, sessionClosed, numRead, updIncr, given, upds)
    }

    /** Only a closed stream is out of the session's map. */
    ghost predicate Valid()
      reads this
    {
      removed <==> closed
    }

    constructor ()
      ensures Writing() == FRESH && Reading() == UNREAD && Valid()
    {
      closed, closing, remoteClosed, writerWaits, removed, sessionClosed := false, false, false, false, false, false;
      numWritten, peerConsumed, peerWindow, writeTail := 0, 0, INITIAL_PEER_WINDOW, [];
      readQueue, readerWaits, resolved, numRead, updIncr := [], false, [], 0, 0;
      out, accepted, given, upds := [], [], [], [];
    }

    // ---- The write side

    method Write(data: seq<byte>) returns (ok: bool)
      modifies `writeTail, `accepted
      ensures (Writing(), ok) == SmuxWrite.Write(old(Writing()), data)
    {
      if closed || closing || remoteClosed {
        return false;
      }
      writeTail := writeTail + [Task.Writing(data, 0, false)];
      accepted := accepted + [data];
      return true;
    }

    method SendFrame(f: Frame)
      modifies `out
      ensures out == if sessionClosed then old(out) else old(out) + [f]
    {
      if !sessionClosed {
        out := out + [f];
      }
    }

    /** One frame of the write at the head of the tail, as much as the window, the data and
        the frame size allow. */
    method SendChunk()
      requires writeTail != [] && writeTail[0].Writing? && writeTail[0].offset < |writeTail[0].data|
      requires WriteWin(Writing()) > 0
      modifies `writeTail, `numWritten, `out
      ensures Writing() == Send(old(Writing()))
    {
      var data := writeTail[0].data;
      var offset := writeTail[0].offset;
      var win := peerWindow - (numWritten - peerConsumed);
      var chunkLen := Min(Min(win, |data| - offset), MAX_FRAME_SIZE);
      SendFrame(Psh(data[offset..offset + chunkLen]));
      numWritten := numWritten + chunkLen;
      writeTail := [Task.Writing(data, offset + chunkLen, true)] + writeTail[1..];
    }

    /** The window is checked: the write waits, or sends a frame. */
    method SendOrWait()
      requires writeTail != [] && writeTail[0].Writing? && writeTail[0].started && !writerWaits
      requires writeTail[0].offset < |writeTail[0].data| && !closed && !remoteClosed
      modifies `writeTail, `numWritten, `out, `writerWaits
      ensures Writing() == Turn(old(Writing()))
      ensures writeTail != [] && writeTail[1..] == old(writeTail[1..])
      ensures writeTail[0].Writing? && writeTail[0].started && writeTail[0].data == old(writeTail[0].data)
      ensures writerWaits || old(writeTail[0].offset) < writeTail[0].offset
    {
      if peerWindow - (numWritten - peerConsumed) <= 0 {
        writerWaits := true;
      } else {
        SendChunk();
      }
    }

    /** The queued write at the head of the tail goes on until it is done, or fails, or
        waits for the window. */
    method WriteSync() returns (ghost turns: nat)
      requires writeTail != [] && writeTail[0].Writing? && !writerWaits
      modifies `writeTail, `numWritten, `out, `writerWaits
      ensures Writing() == Turns(old(Writing()), turns)
      ensures writerWaits || writeTail == old(writeTail[1..])
    {
      ghost var first := Writing();
      turns := 0;
      if writeTail[0].started || (!closed && !remoteClosed) {
        turns := StartAndSend();
      }
      if !writerWaits {
        ghost var sent := Writing();
        FinishWrite();
        TurnsThen(first, turns, sent, 1, Writing());
        turns := turns + 1;
      }
    }

    method StartAndSend() returns (ghost turns: nat)
      requires writeTail != [] && writeTail[0].Writing? && !writerWaits
      requires writeTail[0].started || (!closed && !remoteClosed)
      modifies `writeTail, `numWritten, `out, `writerWaits
      ensures Writing() == Turns(old(Writing()), turns)
      ensures writeTail != [] && writeTail[1..] == old(writeTail[1..]) && writeTail[0].Writing? && writeTail[0].started
      ensures writerWaits || closed || remoteClosed || writeTail[0].offset >= |writeTail[0].data|
    {
      ghost var first := Writing();
      turns := Start();
      ghost var started := Writing();
      ghost var more := SendAll();
      TurnsThen(first, turns, started, more, Writing());
      turns := turns + more;
    }

    /** Frames go out until the data ends, the window does, or the stream. */
    method SendAll() returns (ghost turns: nat)
      requires writeTail != [] && writeTail[0].Writing? && writeTail[0].started && !writerWaits
      modifies `writeTail, `numWritten, `out, `writerWaits
      ensures Writing() == Turns(old(Writing()), turns)
      ensures writeTail != [] && writeTail[1..] == old(writeTail[1..]) && writeTail[0].Writing? && writeTail[0].started
      ensures writerWaits || closed || remoteClosed || writeTail[0].offset >= |writeTail[0].data|
    {
      var data := writeTail[0].data;
      turns := 0;
      while !writerWaits && writeTail[0].offset < |data| && !closed && !remoteClosed
        invariant Writing() == Turns(old(Writing()), turns)
        invariant writeTail != [] && writeTail[1..] == old(writeTail[1..])
        invariant writeTail[0].Writing? && writeTail[0].started && writeTail[0].data == data
        decreases !writerWaits, |data| - writeTail[0].offset
      {
        SendOrWait();
        turns := turns + 1;
      }
    }

    /** The write is done, or fails because the stream was closed. */
    method FinishWrite()
      requires writeTail != [] && writeTail[0].Writing? && !writerWaits
      requires closed || remoteClosed || (writeTail[0].started && writeTail[0].offset >= |writeTail[0].data|)
      modifies `writeTail
      ensures Writing() == Turns(old(Writing()), 1)
      ensures writeTail == old(writeTail[1..])
    {
      OneTurn(Writing());
      writeTail := writeTail[1..];
    }

    method Start() returns (ghost turns: nat)
      requires writeTail != [] && writeTail[0].Writing? && !writerWaits
      requires writeTail[0].started || (!closed && !remoteClosed)
      modifies `writeTail
      ensures Writing() == Turns(old(Writing()), turns)
      ensures writeTail == [old(writeTail[0]).(started := true)] + old(writeTail[1..])
    {
      turns := 0;
      if !writeTail[0].started {
        turns := 1;
        writeTail := [writeTail[0].(started := true)] + writeTail[1..];
      } else {
        assert writeTail == [writeTail[0]] + writeTail[1..];
      }
    }

    method HandleUpd(consumed: nat, window: nat)
      modifies `peerConsumed, `peerWindow, `writerWaits
      ensures Writing() == SmuxWrite.HandleUpd(old(Writing()), consumed, window)
    {
      if removed {
        return;
      }
      peerConsumed := consumed;
      peerWindow := window;
      if writerWaits && peerWindow - (numWritten - peerConsumed) > 0 {
        writerWaits := false;
      }
    }

    method HandleFin()
      requires Valid()
      modifies `remoteClosed, `readerWaits, `writerWaits
      ensures Writing() == SmuxWrite.HandleFin(old(Writing()))
      ensures Reading() == RemoteFinished(old(Reading()))
      ensures Valid()
    {
      if removed {
        return;
      }
      remoteClosed := true;
      readerWaits := false;
      writerWaits := false;
    }

    method Close(force: bool)
      requires Valid()
      modifies `closed, `closing, `readerWaits, `writerWaits, `out, `removed, `writeTail
      ensures Writing() == if force then ForceClose(old(Writing())) else SmuxWrite.Close(old(Writing()))
      ensures Reading() == if force then Shut(Unblock(old(Reading()))) else Unblock(old(Reading()))
      ensures Valid()
    {
      if closed {
        return;
      }
      if force {
        CloseNow();
      } else {
        closing := true;
        readerWaits := false;
        writerWaits := false;
        writeTail := writeTail + [Closing];
      }
    }

    method CloseNow()
      requires !closed && !removed
      modifies `closed, `readerWaits, `writerWaits, `out, `removed
      ensures Writing() == ForceClose(old(Writing()))
      ensures Reading() == Shut(Unblock(old(Reading())))
      ensures Valid()
    {
      Shutting();
      readerWaits := false;
      writerWaits := false;
    }

    /** The stream is closed, its FIN sent, and it leaves the session's map. */
    method Shutting()
      modifies `closed, `out, `removed
      ensures Writing() == Emit(old(Writing()).(closed := true, removed := true), Fin)
      ensures Reading() == Shut(old(Reading()))
      ensures Valid()
    {
      closed := true;
      SendFrame(Fin);
      removed := true;
    }

    /** The close at the head of the tail, once the writes before it are over. */
    method FinishClose()
      requires writeTail != [] && writeTail[0].Closing? && !writerWaits
      requires Valid()
      modifies `closed, `out, `removed, `writeTail
      ensures Writing() == SmuxWrite.FinishClose(old(Writing()))
      ensures Reading() == Shut(old(Reading()))
      ensures Valid()
    {
      Shutting();
      writeTail := writeTail[1..];
    }

    method CloseStream()
      modifies `closed, `closing, `readerWaits, `writerWaits
      ensures Writing() == old(Writing()).(closed := true, closing := true, waiting := false)
      ensures Reading() == old(Reading()).(closed := true, waiting := false)
    {
      closed := true;
      closing := true;
      readerWaits := false;
      writerWaits := false;
    }

    method CloseSession()
      requires Valid()
      modifies `sessionClosed, `closed, `closing, `readerWaits, `writerWaits, `removed
      ensures Writing() == SmuxWrite.CloseSession(old(Writing()))
      ensures Valid()
      ensures Reading() == ShutSession(old(Reading()))
    {
      if sessionClosed {
        return;
      }
      sessionClosed := true;
      if !removed {
        CloseStream();
        removed := true;
      }
    }

    // ---- The read side

    method PushData(data: seq<byte>)
      modifies `resolved, `given, `readerWaits, `readQueue
      ensures Reading() == SmuxFlow.PushData(old(Reading()), data)
    {
      if closed {
        return;
      }
      if readerWaits {
        resolved := resolved + [data];
        given := given + data;
        readerWaits := false;
      } else {
        readQueue := readQueue + [data];
      }
    }

    method AccountRead(chunk: seq<byte>)
      modifies `numRead, `updIncr, `upds
      ensures Reading() == SmuxFlow.AccountRead(old(Reading()), |chunk|)
    {
      numRead := numRead + |chunk|;
      updIncr := updIncr + |chunk|;
      if numRead == |chunk| || updIncr >= UPD_THRESHOLD {
        if !sessionClosed {
          upds := upds + [numRead];
        }
        updIncr := 0;
      }
    }

    /** A chunk, or nothing at the end of the stream, or nothing yet. */
    method Read() returns (chunk: Option<seq<byte>>, pending: bool)
      modifies `readQueue, `given, `readerWaits, `numRead, `updIncr, `upds
      ensures Reading() == SmuxFlow.Read(old(Reading()))
      ensures given == old(given) + if chunk.Some? then chunk.value else []
      ensures pending <==> !old(closed) && old(readQueue) == [] && !old(remoteClosed)
      ensures chunk.Some? <==> !old(closed) && old(readQueue) != []
      ensures pending ==> readerWaits
    {
      chunk, pending := None, false;
      if closed {
        return;
      }
      if |readQueue| > 0 {
        var first := Shift();
        chunk := Some(first);
      } else if !remoteClosed {
        readerWaits := true;
        pending := true;
      }
    }

    method Shift() returns (first: seq<byte>)
      requires readQueue != [] && !closed
      modifies `readQueue, `given, `numRead, `updIncr, `upds
      ensures Reading() == SmuxFlow.Read(old(Reading()))
      ensures first == old(readQueue[0]) && given == old(given) + first
    {
      first := readQueue[0];
      readQueue := readQueue[1..];
      given := given + first;
      AccountRead(first);
    }

    /** A read that waited is given the chunk it was resolved with. */
    method Resume() returns (chunk: seq<byte>)
      requires resolved != []
      modifies `resolved, `numRead, `updIncr, `upds
      ensures Reading() == Take(old(Reading()))
      ensures chunk == old(resolved[0])
    {
      chunk := resolved[0];
      resolved := resolved[1..];
      AccountRead(chunk);
    }
  }
}
