/** The per-connection read and write pipelines (src/network/connection.hpp).

    All completion handlers of one connection run, one at a time, on the
    single I/O thread, so each handler is modelled as an event method that
    the event loop calls when the operation it belongs to completes; its
    outcome (success or error, and the bytes read) is a parameter. An
    operation that asio holds in flight is the field `readOp` or `writeOp`;
    a write operation carries the copy of the front message that its
    handler captured. The host and client flavours of the source share one
    class, told apart by `role`. */
module Connections {
  import opened Common
  import opened Messages
  import opened Queues

  /** `connection_host` (server side) or `connection_client`. */
  datatype Role = HostSide | ClientSide

  /** The asynchronous read in flight, if any. */
  datatype ReadOp = NoRead | ReadingHeader | ReadingBody

  /** The asynchronous write in flight, if any, with the message its
      completion handler captured. */
  datatype WriteOp<T> = NoWrite | WritingHeader(msg: Message<T>) | WritingBody(msg: Message<T>)

  class Connection<T> {
    const role: Role
    /** `m_socket.is_open()`. */
    var open: bool
    /** `m_reading`: the read pipeline has been started. */
    var reading: bool
    /** `m_writing`: the write pipeline is draining `outgoing`. */
    var writing: bool
    /** `m_outgoing`, owned by the connection. */
    const outgoing: Queue<Message<T>>
    /** `m_incoming`: the inbox shared with the owning client or server. */
    const inbox: Queue<Owned<T, Connection<T>>>
    /** `m_temp`: the message being read. */
    var temp: Owned<T, Connection<T>>
    /** `m_id` and `m_accepted` (host connections only). */
    var id: ClientId
    var accepted: bool
    var readOp: ReadOp
    var writeOp: WriteOp<T>

    /** A client connect attempt is in flight. */
    ghost var connecting: bool
    /** Every message handed to `send`, in order. */
    ghost var sent: seq<Message<T>>
    /** Every message whose write has completed, in order. */
    ghost var written: seq<Message<T>>

    /** The write queue: the flag is set exactly while messages wait, and
        every message passed to `send` is either written or still queued,
        in `send` order. */
    ghost predicate WriteQueued()
      reads this, outgoing
    {
      && (writing <==> outgoing.contents != [])
      && sent == written + outgoing.contents
    }

    /** A write in flight belongs to the running pipeline and sends the
        front message; a body write only for a message with a body. */
    ghost predicate WriteInFlight()
      reads this, outgoing
    {
      && (writeOp != NoWrite ==> writing && outgoing.contents != [] && writeOp.msg == outgoing.contents[0])
      && (writeOp.WritingBody? ==> writeOp.msg.header.size > 0)
    }

    /** On an open host connection a set flag means a write is in flight. */
    ghost predicate WriteLive()
      reads this
    {
      role.HostSide? && open && writing ==> writeOp != NoWrite
    }

    /** The read pipeline: a read in flight means the flag is set; a body
        read fills a body of exactly `header.size` bytes; on an open host
        connection a set flag means a read is in flight, and reading starts
        only after `accept`. */
    ghost predicate ReadInv()
      reads this
    {
      && (readOp != NoRead ==> reading)
      && (readOp == ReadingBody ==> |temp.msg.body| == temp.msg.header.size as int)
      && (role.HostSide? && open && reading ==> readOp != NoRead)
      && (role.HostSide? && reading ==> accepted)
      && temp.owner == None
    }

    ghost predicate Valid()
      reads this, outgoing
    {
      WriteQueued() && WriteInFlight() && WriteLive() && ReadInv() && (role.ClientSide? ==> !accepted)
    }

    twostate predicate WriteSideUnchanged()
      reads this, outgoing
    {
      && writing == old(writing) && writeOp == old(writeOp)
      && outgoing.contents == old(outgoing.contents)
      && sent == old(sent) && written == old(written)
    }

    twostate predicate ReadSideUnchanged()
      reads this
    {
      && reading == old(reading) && readOp == old(readOp) && temp == old(temp)
      && id == old(id) && accepted == old(accepted) && connecting == old(connecting)
    }

    /** The effect of `finish_write_message` after a completed write: the
        front message leaves the queue, the flag records whether more
        remain, and if so the next header write starts. */
    twostate predicate WriteFinished()
      reads this, outgoing
    {
      && old(outgoing.contents) != []
      && outgoing.contents == old(outgoing.contents)[1..]
      && written == old(written) + [old(outgoing.contents)[0]]
      && sent == old(sent)
      && writing == (outgoing.contents != [])
      && writeOp == (if writing then WritingHeader(outgoing.contents[0]) else NoWrite)
    }

    /** A server-side connection on a socket that the acceptor has opened.
        `zero` is the value-initialised tag `T{}` of the default message. */
    constructor Host(inbox: Queue<Owned<T, Connection<T>>>, zero: T)
      ensures Valid() && role == HostSide && this.inbox == inbox
      ensures fresh(outgoing) && outgoing.contents == []
      ensures open && !reading && !writing && !accepted
      ensures readOp == NoRead && writeOp == NoWrite
      ensures sent == [] && written == [] && !connecting
      ensures temp.owner == None && temp.msg.header.size == 0 && temp.msg.body == []
    {
      role := HostSide;
      open := true;
      reading, writing := false, false;
      outgoing := new Queue<Message<T>>();
      this.inbox := inbox;
      temp := Owned(Empty(zero), None);
      accepted := false;
      readOp, writeOp := NoRead, NoWrite;
      connecting := false;
      sent, written := [], [];
    }

    /** A client-side connection on a socket that is not yet open. */
    constructor Client(inbox: Queue<Owned<T, Connection<T>>>, zero: T)
      ensures Valid() && role == ClientSide && this.inbox == inbox
      ensures fresh(outgoing) && outgoing.contents == []
      ensures !open && !reading && !writing && !accepted
      ensures readOp == NoRead && writeOp == NoWrite
      ensures sent == [] && written == [] && !connecting
      ensures temp.owner == None && temp.msg.header.size == 0 && temp.msg.body == []
    {
      role := ClientSide;
      open := false;
      reading, writing := false, false;
      outgoing := new Queue<Message<T>>();
      this.inbox := inbox;
      temp := Owned(Empty(zero), None);
      accepted := false;
      readOp, writeOp := NoRead, NoWrite;
      connecting := false;
      sent, written := [], [];
    }

    /** `owner()`: a host connection tags what it reads with itself, a
        client connection with nothing. */
    function Owner(): (r: Option<Connection<T>>)
      ensures r.Some? <==> role.HostSide?
      ensures r.Some? ==> r.value == this
    {
      if role == HostSide then Some(this) else None
    }

    /** `is_connected()`. */
    method IsConnected() returns (b: bool)
      ensures b == open
    {
      b := open;
    }

    /** `disconnect()`: closes the socket if it is open (the posted closure
        is taken to run right away). Only `open` may change, so a second
        call leaves the same state as the first. */
    method Disconnect()
      requires Valid()
      modifies this`open
      ensures Valid() && !open
    {
      if !open {
        return;
      }
      open := false;
    }

    /** `send(m)` (the posted closure): queues `m` at the back and starts
        the write pipeline unless a write is already in flight. */
    method Send(m: Message<T>)
      requires Valid()
      modifies this, outgoing
      ensures Valid() && writing
      ensures outgoing.contents == old(outgoing.contents) + [m]
      ensures sent == old(sent) + [m] && written == old(written)
      ensures old(writing) ==> writeOp == old(writeOp)
      ensures !old(writing) ==> writeOp == WritingHeader(m)
      ensures open == old(open) && ReadSideUnchanged()
    {
      outgoing.PushBack(m);
      sent := sent + [m];
      PrimeWrite();
    }

    /** `prime_read()`: starts a header read unless the read pipeline is
        already running. */
    method PrimeRead()
      requires Valid() && (role.HostSide? ==> accepted)
      modifies this
      ensures Valid() && reading
      ensures old(reading) ==> readOp == old(readOp)
      ensures !old(reading) ==> readOp == ReadingHeader
      ensures open == old(open) && temp == old(temp) && id == old(id) && accepted == old(accepted)
      ensures connecting == old(connecting) && WriteSideUnchanged()
    {
      if reading {
        return;
      }
      reading := true;
      PrimeReadHeader();
    }

    /** `prime_write()`: starts a header write unless a write is in flight. */
    method PrimeWrite()
      requires outgoing.contents != [] && sent == written + outgoing.contents
      requires WriteInFlight() && WriteLive() && ReadInv() && (role.ClientSide? ==> !accepted)
      modifies this
      ensures Valid() && writing
      ensures old(writing) ==> writeOp == old(writeOp)
      ensures !old(writing) ==> writeOp == WritingHeader(outgoing.contents[0])
      ensures sent == old(sent) && written == old(written)
      ensures open == old(open) && ReadSideUnchanged()
    {
      if writing {
        return;
      }
      writing := true;
      PrimeWriteHeader();
    }

    /** `prime_read_header()`: one header read, and only when none is in
        flight. */
    method PrimeReadHeader()
      requires readOp == NoRead
      modifies this`readOp
      ensures readOp == ReadingHeader
    {
      readOp := ReadingHeader;
    }

    /** `prime_read_body()`. */
    method PrimeReadBody()
      requires readOp == NoRead
      modifies this`readOp
      ensures readOp == ReadingBody
    {
      readOp := ReadingBody;
    }

    /** `prime_write_header()`: writes the header of a copy of the front
        message; one write at a time. */
    method PrimeWriteHeader()
      requires outgoing.contents != [] && writeOp == NoWrite
      modifies this`writeOp
      ensures writeOp == WritingHeader(outgoing.contents[0])
    {
      var message := outgoing.Front();
      writeOp := WritingHeader(message);
    }

    /** `prime_write_body()`: writes the body of a copy of the front message. */
    method PrimeWriteBody()
      requires outgoing.contents != [] && writeOp == NoWrite
      modifies this`writeOp
      ensures writeOp == WritingBody(outgoing.contents[0])
    {
      var message := outgoing.Front();
      writeOp := WritingBody(message);
    }

    /** `finish_read_message()`: pushes the message read, tagged with
        `owner()`, to the back of the shared inbox, drops the tag and starts
        reading the next header. */
    method FinishRead()
      requires reading && readOp == NoRead && temp.owner == None
      modifies this, inbox
      ensures inbox.contents == old(inbox.contents) + [Owned(old(temp).msg, Owner())]
      ensures temp == old(temp) && readOp == ReadingHeader
      ensures open == old(open) && reading == old(reading) && id == old(id)
      ensures accepted == old(accepted) && connecting == old(connecting)
      ensures writing == old(writing) && writeOp == old(writeOp)
      ensures sent == old(sent) && written == old(written)
    {
      temp := temp.(owner := Owner());
      inbox.PushBack(temp);
      temp := temp.(owner := None);
      PrimeReadHeader();
    }

    /** `finish_write_message()`: the front message has been written. */
    method FinishWrite()
      requires WriteQueued() && ReadInv() && (role.ClientSide? ==> !accepted)
      requires writing && writeOp == NoWrite
      modifies this, outgoing
      ensures Valid() && WriteFinished()
      ensures open == old(open) && ReadSideUnchanged()
    {
      var m := outgoing.PopFront();
      written := written + [m];
      var empty := outgoing.Empty();
      writing := !empty;
      if writing {
        PrimeWriteHeader();
      }
    }

    /** Completion of the header read started by `prime_read_header`. On
        success the header read from the socket replaces the temporary
        message's header; a non-empty message gets its body resized to
        `size` and a body read, an empty one is dispatched at once with
        whatever body the previous message left behind. On error the socket
        is closed and the flags stay as they are. */
    method OnHeaderRead(ok: bool, h: Header<T>)
      requires Valid() && readOp == ReadingHeader
      modifies this, inbox
      ensures Valid() && WriteSideUnchanged()
      ensures id == old(id) && accepted == old(accepted) && connecting == old(connecting)
      ensures !ok ==> !open && reading == old(reading) && readOp == NoRead && temp == old(temp)
      ensures !ok || h.size > 0 ==> inbox.contents == old(inbox.contents)
      ensures ok ==> open == old(open) && reading
      ensures ok && h.size > 0 ==>
        temp == Owned(Message(h, Resize(old(temp).msg.body, h.size as nat)), None) &&
        |temp.msg.body| == h.size as int && readOp == ReadingBody
      ensures ok && h.size == 0 ==>
        temp == Owned(Message(h, old(temp).msg.body), None) && readOp == ReadingHeader &&
        inbox.contents == old(inbox.contents) + [Owned(Message(h, old(temp).msg.body), Owner())]
    {
      readOp := NoRead;
      if ok {
        temp := temp.(msg := temp.msg.(header := h));
        if h.size > 0 {
          temp := temp.(msg := temp.msg.(body := Resize(temp.msg.body, h.size as nat)));
          PrimeReadBody();
        } else {
          FinishRead();
        }
      } else {
        open := false;
      }
    }

    /** Completion of the body read started by `prime_read_body`: `data` is
        the `header.size` bytes read into the resized body. On success the
        message is dispatched to the inbox exactly once and the next header
        read starts; on error the socket is closed and the flags stay. */
    method OnBodyRead(ok: bool, data: seq<byte>)
      requires Valid() && readOp == ReadingBody && |data| == |temp.msg.body|
      modifies this, inbox
      ensures Valid() && WriteSideUnchanged()
      ensures id == old(id) && accepted == old(accepted) && connecting == old(connecting)
      ensures reading == old(reading)
      ensures !ok ==> !open && readOp == NoRead && temp == old(temp) && inbox.contents == old(inbox.contents)
      ensures ok ==>
        open == old(open) && readOp == ReadingHeader &&
        temp == Owned(Message(old(temp).msg.header, data), None) &&
        inbox.contents == old(inbox.contents) + [Owned(Message(old(temp).msg.header, data), Owner())]
    {
      readOp := NoRead;
      if ok {
        temp := temp.(msg := temp.msg.(body := data));
        FinishRead();
      } else {
        open := false;
      }
    }

    /** Completion of the header write started by `prime_write_header`. On
        success a message with a non-empty body goes on to its body write,
        an empty one is finished; on error the socket is closed and the
        flag and the queue stay as they are. */
    method OnHeaderWritten(ok: bool)
      requires Valid() && writeOp.WritingHeader?
      modifies this, outgoing
      ensures Valid() && ReadSideUnchanged()
      ensures !ok ==>
        !open && writeOp == NoWrite && writing == old(writing) &&
        outgoing.contents == old(outgoing.contents) && sent == old(sent) && written == old(written)
      ensures ok ==> open == old(open)
      ensures ok && old(writeOp).msg.header.size > 0 ==>
        writeOp == WritingBody(old(writeOp).msg) && writing == old(writing) &&
        outgoing.contents == old(outgoing.contents) && sent == old(sent) && written == old(written)
      ensures ok && old(writeOp).msg.header.size == 0 ==> WriteFinished()
    {
      var message := writeOp.msg;
      writeOp := NoWrite;
      if ok {
        if message.header.size > 0 {
          PrimeWriteBody();
        } else {
          FinishWrite();
        }
      } else {
        open := false;
      }
    }

    /** Completion of the body write started by `prime_write_body`: on
        success the message is finished; on error the socket is closed and
        the flag and the queue stay as they are. */
    method OnBodyWritten(ok: bool)
      requires Valid() && writeOp.WritingBody?
      modifies this, outgoing
      ensures Valid() && ReadSideUnchanged()
      ensures !ok ==>
        !open && writeOp == NoWrite && writing == old(writing) &&
        outgoing.contents == old(outgoing.contents) && sent == old(sent) && written == old(written)
      ensures ok ==> open == old(open) && WriteFinished()
    {
      writeOp := NoWrite;
      if ok {
        FinishWrite();
      } else {
        open := false;
      }
    }

    /** `connection_host::accept(id)`: on a connected socket, records the
        id, marks the connection accepted and starts reading; on a closed
        one does nothing. */
    method Accept(newId: ClientId)
      requires Valid() && role.HostSide?
      modifies this
      ensures Valid() && open == old(open) && WriteSideUnchanged()
      ensures temp == old(temp) && connecting == old(connecting)
      ensures old(open) ==>
        id == newId && accepted && reading &&
        readOp == (if old(reading) then old(readOp) else ReadingHeader)
      ensures !old(open) ==> ReadSideUnchanged()
    {
      if open {
        id := newId;
        accepted := true;
        PrimeRead();
      }
    }

    /** `connection_host::id()`. */
    function Id(): (r: ClientId)
      reads this
      ensures r == id
    {
      id
    }

    /** `connection_client::connect(endpoints)`: starts the connect attempt. */
    method Connect()
      requires role.ClientSide?
      modifies this`connecting
      ensures connecting
    {
      connecting := true;
    }

    /** Completion of the connect attempt: on success the socket is open and
        the read pipeline starts; on failure nothing changes. */
    method OnConnected(ok: bool)
      requires Valid() && role.ClientSide? && connecting
      modifies this
      ensures Valid() && !connecting && WriteSideUnchanged()
      ensures temp == old(temp) && id == old(id) && accepted == old(accepted)
      ensures ok ==> open && reading && readOp == (if old(reading) then old(readOp) else ReadingHeader)
      ensures !ok ==> open == old(open) && reading == old(reading) && readOp == old(readOp)
    {
      connecting := false;
      if ok {
        open := true;
        PrimeRead();
      }
    }
  }
}
