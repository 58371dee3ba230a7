/** The connection side of the echo server: admitting a single client, reading
    one buffer per input event, running it through the command handlers, and
    sending the same number of bytes back, resuming a partly sent reply when
    the socket becomes writable again. Socket calls are not made here: their
    outcomes (the descriptor `accept4` returned, what `read` delivered, what
    each `send` reported) are inputs. */
module Server {
  import opened Bytes
  import opened Optional
  import opened Ledger
  import opened Handlers

  /** The readiness events a registration currently asks for. */
  datatype Events = NoEvents | InputEvents | OutputEvents

  /** Why the server asked to be stopped. This file only ever stops with `Error`. */
  datatype StopReason = Error

  /** What one `send` call reported: the number of bytes taken (or -1), and
      whether `errno` was `EAGAIN`. */
  datatype SendOutcome = SendOutcome(result: int, eagain: bool)

  /** The socket's answer to a `send` from payload offset `off` of `remaining` bytes. */
  type Sender = (nat, nat) -> SendOutcome

  /** `send` never reports more bytes than it was asked to send. */
  ghost predicate SendBounded(send: Sender)
  {
    forall off: nat, remaining: nat :: send(off, remaining).result <= remaining
  }

  /** How a run of the send loop ends: the whole payload sent, the socket's
      buffer full (`EAGAIN`), or any other outcome, 0 included. */
  datatype WriteEnd = Finished | Blocked | Broken

  /** The send loop of `HandleClientWriteEvent`, started at offset `off` of a
      payload of `size` bytes: the offset it stops at and why. */
  function SendRun(off: nat, size: nat, send: Sender): (r: (nat, WriteEnd))
    ensures off <= r.0
    ensures r.1 == Finished <==> size <= r.0
    ensures r.1 != Finished ==> r.0 < size
    decreases size - off
  {
    if off >= size then (off, Finished)
    else
      var o := send(off, size - off);
      if o.result > 0 then SendRun(off + o.result, size, send)
      else if o.result < 0 && o.eagain then (off, Blocked)
      else (off, Broken)
  }

  /** One turn of the send loop. */
  lemma {:induction false} SendRunStep(off: nat, size: nat, send: Sender)
    requires off < size
    ensures send(off, size - off).result > 0 ==>
      SendRun(off, size, send) == SendRun(off + send(off, size - off).result, size, send)
    ensures send(off, size - off).result < 0 && send(off, size - off).eagain ==>
      SendRun(off, size, send) == (off, Blocked)
    ensures send(off, size - off).result == 0 || (send(off, size - off).result < 0 && !send(off, size - off).eagain) ==>
      SendRun(off, size, send) == (off, Broken)
  {
  }

  /** When `send` keeps to its bound the offset never passes the payload size. */
  lemma {:induction false} SendRunBounded(off: nat, size: nat, send: Sender)
    requires SendBounded(send) && off <= size
    ensures SendRun(off, size, send).0 <= size
    ensures SendRun(off, size, send).1 == Finished ==> SendRun(off, size, send).0 == size
    decreases size - off
  {
    if off < size {
      var o := send(off, size - off);
      if o.result > 0 {
        SendRunBounded(off + o.result, size, send);
      }
    }
  }

  /** A run that stops on `EAGAIN` at offset p and is resumed at the next
      write event from p ends where one uninterrupted run would have: one
      whose `send` gave the first event's answers below p and the second
      event's answers from p on. */
  lemma {:induction false} SendRunResumes(off: nat, size: nat, first: Sender, second: Sender, whole: Sender)
    requires SendRun(off, size, first).1 == Blocked
    requires forall o: nat, rem: nat :: o < SendRun(off, size, first).0 ==> whole(o, rem) == first(o, rem)
    requires forall o: nat, rem: nat :: o >= SendRun(off, size, first).0 ==> whole(o, rem) == second(o, rem)
    ensures SendRun(off, size, whole) == SendRun(SendRun(off, size, first).0, size, second)
    decreases size - off
  {
    var p := SendRun(off, size, first).0;
    if off == p {
      SendRunAgrees(p, size, whole, second);
    } else {
      var o := first(off, size - off);
      assert whole(off, size - off) == o;
      assert o.result > 0;
      SendRunResumes(off + o.result, size, first, second, whole);
    }
  }

  /** Two senders that answer alike from `off` on give the same run from `off`. */
  lemma {:induction false} SendRunAgrees(off: nat, size: nat, a: Sender, b: Sender)
    requires forall o: nat, rem: nat :: o >= off ==> a(o, rem) == b(o, rem)
    ensures SendRun(off, size, a) == SendRun(off, size, b)
    decreases size - off
  {
    if off < size {
      var o := a(off, size - off);
      assert b(off, size - off) == o;
      if o.result > 0 {
        SendRunAgrees(off + o.result, size, a, b);
      }
    }
  }

  lemma {:induction false} PrefixGrows(s: seq<uint8>, i: nat, j: nat)
    requires i <= j <= |s|
    ensures s[..i] + s[i..j] == s[..j]
  {
  }

  /** The receive buffer after `memset` to zero and a `read` that delivered `received`. */
  function Received(received: seq<uint8>): (bs: seq<uint8>)
    requires |received| <= BUFFER_SIZE
    ensures |bs| == BUFFER_SIZE && bs[..|received|] == received
  {
    Splice(Zeros(BUFFER_SIZE), 0, received)
  }

  /** `EchoServer_ServerState` together with the static receive buffer, the
      descriptor ledger, and a record of the `close` calls and sent bytes. */
  class EchoServer {
    var clientFd: int
    /** `clientEventReg != NULL`. */
    var clientRegistered: bool
    var clientEvents: Events
    /** `listenEventReg != NULL`. */
    const listenRegistered: bool
    var listenEvents: Events
    var inLineSize: nat
    var txPayloadSize: nat
    var txBytesSent: nat
    /** The reason passed to the shutdown callback, once it has been called. */
    var stopped: Option<StopReason>
    /** The descriptors the server itself passed to `close`, in order. */
    var closedFds: seq<int>
    /** The bytes of the current reply that `send` has taken so far. */
    var delivered: seq<uint8>
    /** The reply being sent (`txPayload` points at it). */
    const input: array<uint8>
    /** The static buffer of `HandleClientReadEvent`. */
    const buffer: array<uint8>
    const ledger: FdLedger

    ghost predicate Valid()
      reads this, input, ledger
    {
      && input.Length == BUFFER_SIZE && buffer.Length == BUFFER_SIZE && input != buffer
      && ledger.Valid()
      && inLineSize <= BUFFER_SIZE && txPayloadSize <= BUFFER_SIZE
    }

    /** While a reply is being sent, the bytes taken so far are the first
        `txBytesSent` bytes of `input`. */
    ghost predicate Sending()
      reads this, input
    {
      txBytesSent <= txPayloadSize && txPayloadSize <= input.Length && delivered == input[..txBytesSent]
    }

    /** A server listening, with no client yet. */
    constructor (ledger: FdLedger, listenRegistered: bool)
      requires ledger.Valid()
      ensures Valid() && Sending() && fresh(input) && fresh(buffer)
      ensures this.ledger == ledger && this.listenRegistered == listenRegistered
      ensures clientFd == -1 && !clientRegistered && stopped == None && closedFds == []
      ensures listenEvents == InputEvents && clientEvents == NoEvents
    {
      clientFd := -1;
      clientRegistered := false;
      clientEvents := NoEvents;
      this.listenRegistered := listenRegistered;
      listenEvents := InputEvents;
      inLineSize := 0;
      txPayloadSize := 0;
      txBytesSent := 0;
      stopped := None;
      closedFds := [];
      delivered := [];
      input := new uint8[BUFFER_SIZE](_ => 0);
      buffer := new uint8[BUFFER_SIZE](_ => 0);
      this.ledger := ledger;
    }

    /** `CloseFdAndPrintError`: only a valid descriptor is closed. */
    method CloseFdAndPrintError(fd: int)
      modifies this`closedFds
      ensures closedFds == old(closedFds) + if fd >= 0 then [fd] else []
    {
      if fd >= 0 {
        closedFds := closedFds + [fd];
      }
    }

    /** `LaunchRead`: forget the last line and wait for input. */
    method LaunchRead()
      modifies this`inLineSize, this`clientEvents
      ensures inLineSize == 0 && clientEvents == InputEvents
    {
      inLineSize := 0;
      clientEvents := InputEvents;
    }

    /** `StopServer`: stop listening for events on both sockets and report the reason. */
    method StopServer(reason: StopReason)
      modifies this`clientEvents, this`listenEvents, this`stopped
      ensures clientEvents == if clientRegistered then NoEvents else old(clientEvents)
      ensures listenEvents == if listenRegistered then NoEvents else old(listenEvents)
      ensures stopped == Some(reason)
    {
      if clientRegistered {
        clientEvents := NoEvents;
      }
      if listenRegistered {
        listenEvents := NoEvents;
      }
      stopped := Some(reason);
    }

    /** `HandleListenEvent`, given what `accept4` returned and whether the new
        socket could be registered: a second client is turned away by closing
        its socket, and so is one that cannot be registered. */
    method HandleListenEvent(acceptedFd: int, registerOk: bool)
      requires acceptedFd >= -1
      modifies this`clientFd, this`clientRegistered, this`clientEvents, this`inLineSize, this`closedFds
      ensures acceptedFd == -1 ==>
        clientFd == old(clientFd) && closedFds == old(closedFds) && clientRegistered == old(clientRegistered)
      ensures acceptedFd >= 0 && old(clientFd) >= 0 ==>
        clientFd == old(clientFd) && closedFds == old(closedFds) + [acceptedFd]
        && clientRegistered == old(clientRegistered) && clientEvents == old(clientEvents)
      ensures acceptedFd >= 0 && old(clientFd) < 0 && !registerOk ==>
        clientFd == old(clientFd) && closedFds == old(closedFds) + [acceptedFd] && !clientRegistered
      ensures acceptedFd >= 0 && old(clientFd) < 0 && registerOk ==>
        clientFd == acceptedFd && closedFds == old(closedFds) && clientRegistered
        && clientEvents == InputEvents && inLineSize == 0
      ensures acceptedFd == -1 || old(clientFd) >= 0 || !registerOk ==>
        clientEvents == old(clientEvents) && inLineSize == old(inLineSize)
    {
      var localFd := acceptedFd;
      if localFd != -1 && clientFd < 0 {
        clientRegistered := registerOk;
        if registerOk {
          clientEvents := NoEvents;
          clientFd := localFd;
          localFd := -1;
          LaunchRead();
        }
      }
      CloseFdAndPrintError(localFd);
    }

    /** `HandleClientWriteEvent`: send the rest of the reply until it is all
        sent, the socket's buffer is full (wait for the socket to become
        writable, keeping the offset), or `send` fails (stop the server). */
    method HandleClientWriteEvent(send: Sender) returns (ending: WriteEnd)
      requires Valid() && Sending() && SendBounded(send)
      modifies this`txBytesSent, this`delivered, this`clientEvents, this`listenEvents,
        this`stopped, this`inLineSize
      ensures Valid() && Sending()
      ensures (txBytesSent, ending) == SendRun(old(txBytesSent), txPayloadSize, send)
      ensures ending == Finished ==>
        inLineSize == 0 && clientEvents == InputEvents && stopped == old(stopped)
      ensures ending == Blocked ==>
        inLineSize == old(inLineSize) && clientEvents == OutputEvents && stopped == old(stopped)
      ensures ending == Broken ==>
        inLineSize == old(inLineSize) && clientEvents == NoEvents && stopped == Some(Error)
        && listenEvents == if listenRegistered then NoEvents else old(listenEvents)
      ensures ending != Broken ==> listenEvents == old(listenEvents)
    {
      clientEvents := NoEvents;
      ending := SendLoop(send);
      match ending
      case Finished => LaunchRead();
      case Blocked => clientEvents := OutputEvents;
      case Broken => StopServer(Error);
    }

    /** The `while` loop of `HandleClientWriteEvent`: each positive `send`
        result moves `txBytesSent` on by that many bytes of `input`; the loop
        stops when the payload is sent or on any other result. */
    method SendLoop(send: Sender) returns (ending: WriteEnd)
      requires Valid() && Sending() && SendBounded(send)
      modifies this`txBytesSent, this`delivered
      ensures Valid() && Sending()
      ensures (txBytesSent, ending) == SendRun(old(txBytesSent), txPayloadSize, send)
    {
      ghost var run := SendRun(txBytesSent, txPayloadSize, send);
      while txBytesSent < txPayloadSize
        invariant txBytesSent <= txPayloadSize && delivered == input[..txBytesSent]
        invariant SendRun(txBytesSent, txPayloadSize, send) == run
        decreases txPayloadSize - txBytesSent
      {
        var remaining := txPayloadSize - txBytesSent;
        var o := send(txBytesSent, remaining);
        SendRunStep(txBytesSent, txPayloadSize, send);
        if o.result > 0 {
          var next := txBytesSent + o.result;
          assert next <= txPayloadSize;
          assert SendRun(next, txPayloadSize, send) == run;
          PrefixGrows(input[..], txBytesSent, next);
          delivered := delivered + input[txBytesSent..next];
          txBytesSent := next;
        } else if o.result < 0 && o.eagain {
          return Blocked;
        } else {
          return Broken;
        }
      }
      ending := Finished;
    }

    /** `LaunchWrite`: the reply is the `inLineSize` bytes of `input`, sent from
        its start. */
    method LaunchWrite(send: Sender) returns (ending: WriteEnd)
      requires Valid() && SendBounded(send) && inLineSize <= BUFFER_SIZE
      modifies this`txPayloadSize, this`txBytesSent, this`delivered, this`clientEvents,
        this`listenEvents, this`stopped, this`inLineSize
      ensures Valid() && Sending()
      ensures txPayloadSize == old(inLineSize)
      ensures (txBytesSent, ending) == SendRun(0, txPayloadSize, send)
      ensures ending == Finished ==>
        inLineSize == 0 && clientEvents == InputEvents && stopped == old(stopped)
      ensures ending == Blocked ==>
        inLineSize == old(inLineSize) && clientEvents == OutputEvents && stopped == old(stopped)
      ensures ending == Broken ==>
        inLineSize == old(inLineSize) && clientEvents == NoEvents && stopped == Some(Error)
        && listenEvents == if listenRegistered then NoEvents else old(listenEvents)
      ensures ending != Broken ==> listenEvents == old(listenEvents)
    {
      txPayloadSize := inLineSize;
      txBytesSent := 0;
      delivered := [];
      ending := HandleClientWriteEvent(send);
    }

    /** `process_command`: run the handlers on the receive buffer, copy its
        first n bytes, as the handlers left them, into `input`, and send them back. */
    method ProcessCommand(n: nat, hw: Hardware, send: Sender) returns (ending: WriteEnd)
      requires Valid() && SendBounded(send) && n <= BUFFER_SIZE
      modifies buffer, input, ledger.slots, this`inLineSize, this`txPayloadSize,
        this`txBytesSent, this`delivered, this`clientEvents, this`listenEvents, this`stopped
      ensures Valid() && Sending()
      ensures buffer[..] == Processed(old(buffer[..]), hw)
      ensures ledger.slots[..] == LedgerAfter(old(ledger.slots[..]), old(buffer[..]), hw)
      ensures input[..n] == buffer[..n] && input[n..] == old(input[n..])
      ensures txPayloadSize == n
      ensures (txBytesSent, ending) == SendRun(0, n, send)
      ensures ending == Finished ==> inLineSize == 0 && clientEvents == InputEvents
      ensures ending == Blocked ==> inLineSize == n && clientEvents == OutputEvents
      ensures ending == Broken ==> inLineSize == n && stopped == Some(Error)
    {
      var found := Dispatch(buffer, hw, ledger);
      Store(input, 0, buffer[..n]);
      inLineSize := n;
      ending := LaunchWrite(send);
    }

    /** The failed-read branch of `HandleClientReadEvent`: close the client
        socket, forget it, and close every descriptor in the ledger. */
    method DropClient()
      requires Valid()
      modifies ledger, ledger.slots, this`clientFd, this`closedFds
      ensures clientFd == -1 && closedFds == old(closedFds) + [old(clientFd)]
      ensures ledger.slots[..] == FreeSlots(LEDGE_SIZE)
      ensures ledger.closed == old(ledger.closed) + Occupied(old(ledger.slots[..]))
    {
      closedFds := closedFds + [clientFd];
      clientFd := -1;
      ledger.Close();
    }

    /** The successful-read branch of `HandleClientReadEvent`: the bytes read
        land at the front of the cleared buffer, and the command is processed. */
    method ServeCommand(received: seq<uint8>, hw: Hardware, send: Sender) returns (ending: WriteEnd)
      requires Valid() && SendBounded(send)
      requires 0 < |received| <= BUFFER_SIZE && buffer[..] == Zeros(BUFFER_SIZE)
      modifies buffer, input, ledger.slots, this`inLineSize, this`txPayloadSize,
        this`txBytesSent, this`delivered, this`clientEvents, this`listenEvents, this`stopped
      ensures Valid() && Sending()
      ensures buffer[..] == Processed(Received(received), hw)
      ensures ledger.slots[..] == LedgerAfter(old(ledger.slots[..]), Received(received), hw)
      ensures input[..|received|] == buffer[..|received|]
      ensures txPayloadSize == |received|
      ensures (txBytesSent, ending) == SendRun(0, |received|, send)
      ensures ending == Finished ==> delivered == buffer[..|received|] && inLineSize == 0
    {
      Store(buffer, 0, received);
      assert buffer[..] == Received(received);
      ending := ProcessCommand(|received|, hw, send);
      SendRunBounded(0, |received|, send);
    }

    /** `HandleClientReadEvent`, given what `read` returned (n) and the bytes it
        delivered: the buffer is cleared and filled; a result of 0 or -1 closes
        the client and every descriptor in the ledger and dispatches nothing;
        otherwise the command is processed and its reply sent. */
    method HandleClientReadEvent(n: int, received: seq<uint8>, hw: Hardware, send: Sender)
      returns (ending: Option<WriteEnd>)
      requires Valid() && Sending() && SendBounded(send)
      requires -1 <= n <= BUFFER_SIZE && (n >= 0 ==> |received| == n)
      modifies buffer, input, ledger, ledger.slots, this`clientFd, this`closedFds,
        this`inLineSize, this`txPayloadSize, this`txBytesSent, this`delivered,
        this`clientEvents, this`listenEvents, this`stopped
      ensures Valid() && Sending()
      ensures n <= 0 ==>
        && ending == None
        && clientFd == -1 && closedFds == old(closedFds) + [old(clientFd)]
        && ledger.slots[..] == FreeSlots(LEDGE_SIZE)
        && ledger.closed == old(ledger.closed) + Occupied(old(ledger.slots[..]))
        && buffer[..] == Zeros(BUFFER_SIZE) && clientEvents == NoEvents
        && input[..] == old(input[..]) && txPayloadSize == old(txPayloadSize)
        && txBytesSent == old(txBytesSent) && inLineSize == old(inLineSize)
      ensures n > 0 ==>
        && ending.Some?
        && clientFd == old(clientFd) && closedFds == old(closedFds)
        && ledger.closed == old(ledger.closed)
        && buffer[..] == Processed(Received(received), hw)
        && ledger.slots[..] == LedgerAfter(old(ledger.slots[..]), Received(received), hw)
        && input[..n] == buffer[..n]
        && txPayloadSize == n
        && (txBytesSent, ending.value) == SendRun(0, n, send)
      ensures ending == Some(Finished) ==> delivered == buffer[..n] && inLineSize == 0
    {
      Store(buffer, 0, Zeros(BUFFER_SIZE));
      clientEvents := NoEvents;
      if n <= 0 {
        DropClient();
        ending := None;
      } else {
        var e := ServeCommand(received, hw, send);
        ending := Some(e);
      }
    }
  }
}
