# PCSX2 IPC command protocol in Dafny

This project models the byte-level command protocol of the PCSX2 IPC server. An outside tool (a debugger, a cheat engine, a script) uses this server to read and write the emulated machine's memory over a local socket. The model has three parts.

- **Wire codec** (`wire_codec.dfy`, module `WireCodec`).
  - The big-endian decoders `to8b`/`to16b`/`to32b`/`to64b` become the functions `To8b` … `To64b` over `seq<byte>`.
  - The encoders `from8b` … `from64b` write into a caller's buffer at offset `i`. They become methods on `array<byte>` with `modifies` clauses.
  - The reply constructors `MakeOkIPC`/`MakeFailIPC` allocate a fresh array and stamp its status byte.
  - Every decoder and encoder is tied to one reference definition: `BigEndian` (bytes to number) and `Bytes` (number to bytes). The two are proved inverse in both directions.
- **Command dispatcher** (`command_dispatcher.dfy`, module `CommandDispatcher`).
  - `ParseCommand` is a method over the request `array<byte>`. Its postcondition says the reply equals the specification function `Dispatch`.
  - `OpcodeTable` relates the `IPCCommand` enumerator values to the commands and their widths.
  - The lemmas about `Dispatch` cover the read and write replies, the collapse of every thrown failure into one `FAIL` byte, and the request bytes that matter.
- **Lifecycle** (`lifecycle.dfy`, module `Lifecycle`).
  - The `m_state` flag is a field of class `SocketIPC`, with `Start`/`Stop` that do nothing when the server is already in the requested state.

Conventions of the model:

- A byte is an integer in 0..255. The source's `char` is read as unsigned.
- `IPC_OK` is 0x00 and `IPC_FAIL` is 0xFF, following the reply-code comment in `ParseCommand`.
- The emulator's `memRead*`/`memWrite*` routines are an abstract capability `mem: MemAccess -> Outcome`.
  - It is called with `MemRead(width, addr)` or `MemWrite(width, addr, value)`.
  - It answers `Done(value)` or `Fault`. `Fault` stands for a thrown exception, which the source catches and sends to its `error:` label.
  - "No memory call is made" is stated as: the reply is the same for every capability.
- A value read is stored in a local of the access width (`u8` … `u64`). The model therefore reduces it modulo 256^width.
- `ParseCommand` requires only the bytes it reads: the opcode, the 4-byte address and a write's operand (at most 13 bytes). The socket loop passes a 1024-byte buffer, which meets this. It zeroes the buffer before each read, so operand bytes the client did not send decode as 0.

## Model

| member | source | states |
|---|---|---|
| `WireCodec.To8b` | pcsx2/IPC.h:18 | the value is the big-endian value of the first byte, below 2^8 |
| `WireCodec.To16b` | pcsx2/IPC.h:15-16 | the value is the big-endian value of the first 2 bytes, below 2^16; later bytes do not matter |
| `WireCodec.To32b` | pcsx2/IPC.h:10-13 | the shift-and-add of the first 4 bytes is their big-endian value and stays below 2^32 (the shifted ranges never carry into each other); later bytes do not matter |
| `WireCodec.To64b` | pcsx2/IPC.h:1-8 | the value is the big-endian value of the first 8 bytes, below 2^64; later bytes do not matter |
| `WireCodec.DecodeEncode` | pcsx2/IPC.h:1-18 | encoding a value below 256^n in n bytes and decoding them returns the value (the round trip of the encoders and decoders) |
| `WireCodec.EncodeDecode` | pcsx2/IPC.h:1-18 | the other direction: decoding n bytes and re-encoding gives the same bytes, so the decoders are injective |
| `WireCodec.From8b` | pcsx2/IPC.cpp:165-168 | requires `i + 1 <= length`; stores the byte at `i`, leaves every other element unchanged, and `To8b` at `i` returns the value |
| `WireCodec.From16b` | pcsx2/IPC.cpp:159-163 | requires `i + 2 <= length`; `a[i..i+2)` becomes the big-endian bytes of the value, every other element is unchanged, and `To16b` at `i` returns the value |
| `WireCodec.From32b` | pcsx2/IPC.cpp:151-157 | requires `i + 4 <= length`; `a[i..i+4)` becomes the big-endian bytes of the value, every other element is unchanged, and `To32b` at `i` returns the value |
| `WireCodec.From64b` | pcsx2/IPC.cpp:139-149 | requires `i + 8 <= length`; `a[i..i+8)` becomes the big-endian bytes of the value, every other element is unchanged, and `To64b` at `i` returns the value |
| `WireCodec.MakeOkIPC` | pcsx2/IPC.cpp:126-130 | for size >= 1, returns a fresh array of that length whose element 0 is `IPC_OK` |
| `WireCodec.MakeFailIPC` | pcsx2/IPC.cpp:133-137 | for size >= 1, returns a fresh array of that length whose element 0 is `IPC_FAIL` |
| `WireCodec.From64bUnchecked` | pcsx2/IPC.cpp:139-149 | `from64b` without a bounds check: indices inside the buffer get the big-endian bytes of the value, and the bytes past the end are returned as spills at indices length, length+1, … |
| `WireCodec.ReadWordAsWritten` | pcsx2/IPC.cpp:200-206 | the ReadWord reply as written: for every 32-bit value the client gets `00 00 00 00 00` (decoding to 0), and the value's four bytes land at indices 5..8, past the 5-byte buffer |
| `CommandDispatcher.DecodeCommand` | pcsx2/IPC.cpp:181-185 | a byte names a command exactly when it is below 8, and then it is that command's enumerator value |
| `CommandDispatcher.OpcodeTable` | pcsx2/IPC.h:38-47 | about `Opcode`, which holds the enumerator values `MsgRead8 = 0` … `MsgWrite64 = 7`: opcodes 0..3 are reads and 4..7 writes of widths 1, 2, 4 and 8 bytes, and each command is recovered from its opcode |
| `CommandDispatcher.RequestSize` | pcsx2/IPC.cpp:181-237 | the bytes the dispatcher reads: 5 + w (6, 7, 9 or 13) for a write of width w, and 5 for a read or an unknown opcode, whose address is decoded before the switch; always between 5 and 13 |
| `CommandDispatcher.RequestedAccess` | pcsx2/IPC.cpp:183-233 | the memory call a request makes: none exactly when the opcode byte is 8 or more; otherwise a read or write of the opcode's width at address `BigEndian(req[1..5])` (decoded before the switch), and for a write the operand `BigEndian(req[5..5+w))` |
| `CommandDispatcher.Operand` | pcsx2/IPC.cpp:215-233 | a write's operand is the big-endian value of its first `width` bytes, below 256^width |
| `CommandDispatcher.Dispatch` | pcsx2/IPC.cpp:171-245 | the reply length is one of 1, 2, 3, 5, 9; the status is OK or FAIL; a FAIL reply is exactly the single byte FAIL |
| `CommandDispatcher.UnknownOpcodeFails` | pcsx2/IPC.cpp:238-241 | an opcode byte of 8 or more gets `[FAIL]`, and the reply is the same whatever the memory routines would do, so none is called |
| `CommandDispatcher.OnlyRequestedAccessMatters` | pcsx2/IPC.cpp:185-243 | the reply depends on the memory routines only through their answer to the one access the request names |
| `CommandDispatcher.ReadReply` | pcsx2/IPC.cpp:186-213 | a read of width w (opcodes 0..3) reads at `to32b(buf[1..5))`; on success the reply has length 1 + w, status OK, and a payload that decodes big-endian to the value read (with the corrected ReadWord path, see Findings) |
| `CommandDispatcher.WriteReply` | pcsx2/IPC.cpp:214-237 | a write of width w (opcodes 4..7) writes `toNb(buf[5..5+w))` at `to32b(buf[1..5))`; on success the reply is `[OK]` |
| `CommandDispatcher.FailureCollapses` | pcsx2/IPC.cpp:188-241 | the reply is FAIL if and only if the opcode is unknown or the memory routine throws, and a FAIL reply is always `[FAIL]` whatever the address and operand bytes are |
| `CommandDispatcher.OnlyRequestBytesMatter` | pcsx2/IPC.cpp:181-237 | two buffers that agree on the bytes the opcode needs (5, or 5 + w for a write) ask for the same access and get the same reply |
| `CommandDispatcher.Only13BytesMatter` | pcsx2/IPC.cpp:181-244 | of the 1024-byte request buffer, bytes 13..1023 never affect the reply |
| `CommandDispatcher.ParseCommand` | pcsx2/IPC.cpp:171-245 | returns a fresh reply whose length is the returned length and whose bytes are exactly `Dispatch` of the request buffer |
| `CommandDispatcher.ReadByteExample` | pcsx2/IPC.cpp:186-192 | ReadByte at address 0x10 holding 0x42 gets `00 42` |
| `CommandDispatcher.WriteWordExample` | pcsx2/IPC.cpp:226-231 | WriteWord `06 00 00 00 10 DE AD BE EF` writes 0xDEADBEEF at 0x10 and, on success, gets `00` |
| `Lifecycle.SocketIPC.constructor` | pcsx2/IPC.cpp:23-78 | the state starts Stopped; if socket creation and bind succeeded it ends Started after one thread launch, otherwise it stays Stopped |
| `Lifecycle.SocketIPC.Start` | pcsx2/IPC.h:72-73 | the state becomes Started; from Started nothing changes, from Stopped the thread is launched once |
| `Lifecycle.SocketIPC.Stop` | pcsx2/IPC.h:75-76 | the state becomes Stopped; from Stopped nothing changes, from Started the thread is stopped once |

## Left out

- The socket setup in the constructor (WSAStartup, socket, bind, unlink, listen with backlog 100) is platform I/O. The constructor takes its success as the parameter `listening`. The ignored return value of `listen` is not modelled.
- The accept/read/write loop `ExecuteTaskInThread` is blocking socket I/O on a worker thread. Only its 1024-byte buffer appears, in `Only13BytesMatter`.
- `FailureCollapses`, `Dispatch`: a failing memory routine is modelled only as one that throws a C++ exception, which `catch (...)` sends to the shared FAIL reply. The comment at pcsx2/IPC.cpp:20-21 says that on Linux an inactive VM makes the routines assert or crash instead, so `ParseCommand` never reaches `error:` there. The "every failure gives `[FAIL]`" property holds only for failures that throw.
- The destructor's close/unlink and the thread cancellation are resource teardown.
- The emulator's `memRead*`/`memWrite*` live in `Memory.h`, which is not part of this model. They are the abstract capability `mem`. The memory changes a write makes are not modelled, because the dispatcher never observes them.
- `Start` and `Stop` are declared with doc comments only; their bodies are not part of this model. The class follows the doc comments, and the ghost counters `launches`/`halts` stand for starting and cancelling the socket thread.
- `malloc` ownership, leaked reply buffers and console logging are not modelled. Replies are fresh arrays. `MakeOkIPC`/`MakeFailIPC` promise nothing about the bytes after the status byte, just as `malloc` leaves them uninitialised.
- The encoders return the pointer they were given. The methods return nothing, and callers keep using the same array.
- Signed `char`, the `std::tuple`/`std::pair` signature mismatch between header and source, and the `uint16_t` cast inside `to8b` are C++ artefacts with no effect on the values.
- The FAIL sentinel is not defined in these files. The model uses 0xFF, the value the reply-code comment gives.

## Findings

| source | as written | input that shows it | evidently intended | confidence | as-written member | corrected member |
|---|---|---|---|---|---|---|
| pcsx2/IPC.cpp:204 | `from64b(MakeOkIPC(5), res, 1)` stores 8 bytes at indices 1..8 of a 5-byte reply, with the 32-bit `res` widened to 64 bits | ReadWord (`02 00 00 10 00`) whose `memRead32` returns 0xDEADBEEF: the client gets `00 00 00 00 00`, and `DE AD BE EF` is written at indices 5..8, past the buffer | `from32b(MakeOkIPC(5), res, 1)`, giving the reply `00 DE AD BE EF` | not executed | `WireCodec.ReadWordAsWritten` | `CommandDispatcher.ParseCommand` |

The corrected ReadWord path encodes with `From32b`. `ReadReply` proves its payload decodes to the value read. `From64b`'s precondition `i + 8 <= length` is what the original call violates. The other read paths meet their encoders' bounds: `from8b` on 2 bytes, `from16b` on 3 bytes and `from64b` on 9 bytes, each at offset 1.
