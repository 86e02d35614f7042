/**
 * The command dispatcher of the PCSX2 IPC server (`SocketIPC::ParseCommand`): one request
 * buffer in, one reply buffer out, with at most one call into the emulator's memory
 * routines in between.
 *
 * Request: [opcode:1][address:4 big-endian][operand:0|1|2|4|8 big-endian]
 * Reply:   [status:1][payload:0|1|2|4|8 big-endian]
 */
module CommandDispatcher {
  import opened WireCodec

  datatype Option<T> = None | Some(value: T)

  /** The access width of a command: the 8, 16, 32 or 64 of `MsgRead8` … `MsgWrite64`. */
  datatype Width = W8 | W16 | W32 | W64

  /** The width in bytes. */
  function Size(w: Width): (n: nat)
    ensures n == 1 || n == 2 || n == 4 || n == 8
  {
    match w
    case W8 => 1
    case W16 => 2
    case W32 => 4
    case W64 => 8
  }

  /** The eight commands of the `IPCCommand` enumeration. */
  datatype Command = Read(width: Width) | Write(width: Width)

  /** The value of each `IPCCommand` enumerator. */
  function Opcode(c: Command): byte
  {
    match c
    case Read(W8) => 0
    case Read(W16) => 1
    case Read(W32) => 2
    case Read(W64) => 3
    case Write(W8) => 4
    case Write(W16) => 5
    case Write(W32) => 6
    case Write(W64) => 7
  }

  /** `(IPCCommand)buf[0]` and the switch's case labels: the command a byte names, if any. */
  function DecodeCommand(op: byte): (c: Option<Command>)
    ensures c.Some? <==> op < 8
    ensures c.Some? ==> Opcode(c.value) == op
  {
    if op == 0 then Some(Read(W8))
    else if op == 1 then Some(Read(W16))
    else if op == 2 then Some(Read(W32))
    else if op == 3 then Some(Read(W64))
    else if op == 4 then Some(Write(W8))
    else if op == 5 then Some(Write(W16))
    else if op == 6 then Some(Write(W32))
    else if op == 7 then Some(Write(W64))
    else None
  }

  /** The opcode table: 0..3 read and 4..7 write 1, 2, 4 and 8 bytes, and every command is
      recovered from its opcode. */
  lemma OpcodeTable(c: Command)
    ensures DecodeCommand(Opcode(c)) == Some(c)
    ensures c.Read? <==> Opcode(c) < 4
    ensures Size(c.width) == [1, 2, 4, 8][Opcode(c) % 4]
  {
    match c
    case Read(w) =>
    case Write(w) =>
  }

  /** A call into the emulator's memory routines: `memReadN(addr)` or `memWriteN(addr, value)`. */
  datatype MemAccess = MemRead(width: Width, addr: nat) | MemWrite(width: Width, addr: nat, value: nat)

  /** What a memory routine does: it returns or it throws. For a read, `Done` carries the
      value read; the write routines return nothing, so for a write the dispatcher looks
      only at whether the call returned and ignores `value`. */
  datatype Outcome = Done(value: nat) | Fault

  /** The bytes of a request that `ParseCommand` reads: the opcode, the 4-byte address
      (decoded before the switch, whatever the opcode) and a write's operand. */
  function RequestSize(op: byte): (n: nat)
    ensures 5 <= n <= 13
    ensures DecodeCommand(op).Some? && DecodeCommand(op).value.Write? ==>
              n == 5 + Size(DecodeCommand(op).value.width)
    ensures !(DecodeCommand(op).Some? && DecodeCommand(op).value.Write?) ==> n == 5
  {
    match DecodeCommand(op)
    case Some(Write(w)) => 5 + Size(w)
    case _ => 5
  }

  predicate Readable(req: seq<byte>)
  {
    5 <= |req| && RequestSize(req[0]) <= |req|
  }

  /** The `Size(w)`-byte operand of a write, decoded by the matching macro. */
  function Operand(w: Width, s: seq<byte>): (v: nat)
    requires Size(w) <= |s|
    ensures v == BigEndian(s[..Size(w)])
    ensures v < Pow256(Size(w))
  {
    match w
    case W8 => To8b(s)
    case W16 => To16b(s)
    case W32 => To32b(s)
    case W64 => To64b(s)
  }

  /** The memory call a request asks for; none for an unknown opcode. The address is
      decoded from bytes 1..4 before the switch, whatever the opcode. */
  function RequestedAccess(req: seq<byte>): (acc: Option<MemAccess>)
    requires Readable(req)
    ensures acc.None? <==> req[0] >= 8
    ensures acc.Some? ==>
              && acc.value.addr == BigEndian(req[1..5])
              && acc.value.width == DecodeCommand(req[0]).value.width
              && (acc.value.MemRead? <==> DecodeCommand(req[0]).value.Read?)
    ensures acc.Some? && acc.value.MemWrite? ==>
              acc.value.value == BigEndian(req[5..5 + Size(acc.value.width)])
  {
    assert req[1..][..4] == req[1..5];
    assert forall n :: 0 <= n <= |req| - 5 ==> req[5..][..n] == req[5..5 + n];
    var a := To32b(req[1..]);
    match DecodeCommand(req[0])
    case None => None
    case Some(Read(w)) => Some(MemRead(w, a))
    case Some(Write(w)) => Some(MemWrite(w, a, Operand(w, req[5..])))
  }

  /** The reply to a request when the memory routines behave as `mem`. A value read is
      kept in a local of the access width (`u8` … `u64`), so it is reduced modulo 256^width. */
  function Dispatch(req: seq<byte>, mem: MemAccess -> Outcome): (reply: seq<byte>)
    requires Readable(req)
    ensures |reply| == 1 || |reply| == 2 || |reply| == 3 || |reply| == 5 || |reply| == 9
    ensures reply[0] == IPC_OK || reply[0] == IPC_FAIL
    ensures reply[0] == IPC_FAIL ==> reply == [IPC_FAIL]
  {
    match RequestedAccess(req)
    case None => [IPC_FAIL]
    case Some(acc) =>
      match mem(acc)
      case Fault => [IPC_FAIL]
      case Done(v) =>
        if acc.MemRead? then
          var n := Size(acc.width);
          [IPC_OK] + Bytes(v % Pow256(n), n)
        else
          [IPC_OK]
  }

  /** An opcode outside the enumeration gets the 1-byte FAIL reply whatever the memory
      routines would do: none of them is called. */
  lemma UnknownOpcodeFails(req: seq<byte>, mem: MemAccess -> Outcome, other: MemAccess -> Outcome)
    requires Readable(req) && req[0] >= 8
    ensures Dispatch(req, mem) == [IPC_FAIL]
    ensures Dispatch(req, mem) == Dispatch(req, other)
  {
  }

  /** The memory routines are consulted only at the access the request asks for: two
      capabilities that agree there give the same reply. */
  lemma OnlyRequestedAccessMatters(req: seq<byte>, mem: MemAccess -> Outcome, other: MemAccess -> Outcome)
    requires Readable(req)
    requires RequestedAccess(req).Some? ==> mem(RequestedAccess(req).value) == other(RequestedAccess(req).value)
    ensures Dispatch(req, mem) == Dispatch(req, other)
  {
  }

  /** A read of width w reads at the big-endian address in bytes 1..4; when it succeeds the
      reply is OK followed by the w-byte big-endian encoding of the value read. */
  lemma ReadReply(req: seq<byte>, mem: MemAccess -> Outcome, w: Width)
    requires Readable(req) && DecodeCommand(req[0]) == Some(Read(w))
    ensures RequestedAccess(req) == Some(MemRead(w, BigEndian(req[1..5])))
    ensures mem(MemRead(w, BigEndian(req[1..5]))).Done? ==>
              var reply := Dispatch(req, mem);
              |reply| == 1 + Size(w) && reply[0] == IPC_OK &&
              BigEndian(reply[1..]) == mem(MemRead(w, BigEndian(req[1..5]))).value % Pow256(Size(w))
  {
    assert req[1..][..4] == req[1..5];
    var acc := MemRead(w, BigEndian(req[1..5]));
    assert RequestedAccess(req) == Some(acc);
    if mem(acc).Done? {
      var n := Size(w);
      var res := mem(acc).value % Pow256(n);
      DecodeEncode(res, n);
      assert Dispatch(req, mem) == [IPC_OK] + Bytes(res, n);
      assert Dispatch(req, mem)[1..] == Bytes(res, n);
    }
  }

  /** A write of width w writes the big-endian operand in bytes 5..5+w-1 at the big-endian
      address in bytes 1..4; when it succeeds the reply is the single OK byte. */
  lemma WriteReply(req: seq<byte>, mem: MemAccess -> Outcome, w: Width)
    requires Readable(req) && DecodeCommand(req[0]) == Some(Write(w))
    ensures RequestedAccess(req) == Some(MemWrite(w, BigEndian(req[1..5]), BigEndian(req[5..5 + Size(w)])))
    ensures mem(RequestedAccess(req).value).Done? ==> Dispatch(req, mem) == [IPC_OK]
  {
    assert req[1..][..4] == req[1..5];
    assert req[5..][..Size(w)] == req[5..5 + Size(w)];
  }

  /** The reply is FAIL exactly when the opcode is unknown or the memory routine throws;
      every cause collapses into the same 1-byte reply. */
  lemma FailureCollapses(req: seq<byte>, mem: MemAccess -> Outcome)
    requires Readable(req)
    ensures Dispatch(req, mem)[0] == IPC_FAIL <==>
              RequestedAccess(req).None? || mem(RequestedAccess(req).value).Fault?
    ensures Dispatch(req, mem)[0] == IPC_FAIL ==> Dispatch(req, mem) == [IPC_FAIL]
  {
  }

  /** Only the first `RequestSize(req[0])` bytes of a request matter: two buffers that agree
      on them get the same reply and ask for the same access. */
  lemma OnlyRequestBytesMatter(req: seq<byte>, other: seq<byte>, mem: MemAccess -> Outcome)
    requires Readable(req) && RequestSize(req[0]) <= |other|
    requires req[..RequestSize(req[0])] == other[..RequestSize(req[0])]
    ensures Readable(other)
    ensures RequestedAccess(other) == RequestedAccess(req)
    ensures Dispatch(other, mem) == Dispatch(req, mem)
  {
    var n := RequestSize(req[0]);
    assert req[0] == req[..n][0] == other[..n][0] == other[0];
    assert req[1..][..4] == req[..n][1..5] == other[..n][1..5] == other[1..][..4];
    match DecodeCommand(req[0])
    case Some(Write(w)) =>
      assert req[5..][..Size(w)] == req[5..n] == req[..n][5..n];
      assert other[5..][..Size(w)] == other[5..n] == other[..n][5..n];
    case _ =>
  }

  /** Of the 1024-byte buffer the socket loop reads into, bytes 13..1023 never affect the reply. */
  lemma Only13BytesMatter(buf: seq<byte>, other: seq<byte>, mem: MemAccess -> Outcome)
    requires |buf| == 1024 && |other| == 1024 && buf[..13] == other[..13]
    ensures Dispatch(buf, mem) == Dispatch(other, mem)
  {
    var n := RequestSize(buf[0]);
    assert buf[..n] == buf[..13][..n] == other[..13][..n] == other[..n];
    OnlyRequestBytesMatter(buf, other, mem);
  }

  /** `SocketIPC::ParseCommand`: decodes the opcode and address, calls the memory routine the
      opcode names, and builds the reply; a throwing routine and an unknown opcode both end
      at the shared FAIL reply. Returns the reply's length and the reply. */
  method ParseCommand(buf: array<byte>, mem: MemAccess -> Outcome) returns (len: nat, reply: array<byte>)
    requires Readable(buf[..])
    ensures fresh(reply) && len == reply.Length
    ensures reply[..] == Dispatch(buf[..], mem)
  {
    assert buf[..][1..] == buf[1..];
    assert buf[..][5..] == buf[5..];
    var a := To32b(buf[1..]);
    match DecodeCommand(buf[0]) {
      case Some(Read(W8)) =>
        var o := mem(MemRead(W8, a));
        if o.Done? {
          reply := MakeOkIPC(2);
          From8b(reply, o.value % 0x100, 1);
          assert reply[..] == [reply[0]] + reply[1..2];
          return 2, reply;
        }
      case Some(Read(W16)) =>
        var o := mem(MemRead(W16, a));
        if o.Done? {
          reply := MakeOkIPC(3);
          From16b(reply, o.value % 0x1_0000, 1);
          assert reply[..] == [reply[0]] + reply[1..3];
          return 3, reply;
        }
      case Some(Read(W32)) =>
        var o := mem(MemRead(W32, a));
        if o.Done? {
          reply := MakeOkIPC(5);
          // The source encodes with from64b here, writing past the 5-byte buffer.
          From32b(reply, o.value % 0x1_0000_0000, 1);
          assert reply[..] == [reply[0]] + reply[1..5];
          return 5, reply;
        }
      case Some(Read(W64)) =>
        var o := mem(MemRead(W64, a));
        if o.Done? {
          reply := MakeOkIPC(9);
          From64b(reply, o.value % 0x1_0000_0000_0000_0000, 1);
          assert reply[..] == [reply[0]] + reply[1..9];
          return 9, reply;
        }
      case Some(Write(W8)) =>
        var o := mem(MemWrite(W8, a, To8b(buf[5..])));
        if o.Done? {
          reply := MakeOkIPC(1);
          return 1, reply;
        }
      case Some(Write(W16)) =>
        var o := mem(MemWrite(W16, a, To16b(buf[5..])));
        if o.Done? {
          reply := MakeOkIPC(1);
          return 1, reply;
        }
      case Some(Write(W32)) =>
        var o := mem(MemWrite(W32, a, To32b(buf[5..])));
        if o.Done? {
          reply := MakeOkIPC(1);
          return 1, reply;
        }
      case Some(Write(W64)) =>
        var o := mem(MemWrite(W64, a, To64b(buf[5..])));
        if o.Done? {
          reply := MakeOkIPC(1);
          return 1, reply;
        }
      case None =>
    }
    // The `default:` case and the `error:` label every throwing routine jumps to.
    reply := MakeFailIPC(1);
    len := 1;
  }

  /** ReadByte at a readable address holding 0x42 gets the reply 00 42. */
  lemma ReadByteExample(req: seq<byte>, mem: MemAccess -> Outcome)
    requires |req| == 1024 && req[..5] == [0x00, 0x00, 0x00, 0x00, 0x10]
    requires mem(MemRead(W8, 0x10)) == Done(0x42)
    ensures Dispatch(req, mem) == [IPC_OK, 0x42]
  {
    assert req[1..][..4] == req[..5][1..];
  }

  /** WriteWord with address bytes 00 00 00 10 and operand bytes DE AD BE EF writes 0xDEADBEEF
      at address 0x10; when the write succeeds the reply is the single byte 00. */
  lemma WriteWordExample(req: seq<byte>, mem: MemAccess -> Outcome)
    requires |req| == 1024 && req[..9] == [0x06, 0x00, 0x00, 0x00, 0x10, 0xDE, 0xAD, 0xBE, 0xEF]
    ensures RequestedAccess(req) == Some(MemWrite(W32, 0x10, 0xDEADBEEF))
    ensures mem(MemWrite(W32, 0x10, 0xDEADBEEF)).Done? ==> Dispatch(req, mem) == [IPC_OK]
  {
    assert req[1..][..4] == req[..9][1..5];
    assert req[5..][..4] == req[..9][5..];
  }
}
