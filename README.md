# Reliable transfer for the SVSM attestation proxy, in Dafny

The attestation proxy carries attestation evidence from a confidential
guest to a remote verifier. Every byte crosses a channel that implements
one of two small capability traits from `svsm-attest`: `SvsmProxyRead`
has the single primitive `proxy_read`, and `SvsmProxyWrite` has the
primitives `write` and `flush`. The crate builds its reliable operations
on top of them, once, for every channel:

- `read_exact` keeps calling `proxy_read` on the unfilled tail of a buffer
  until the buffer is full or the primitive answers 0. It fails with
  `ProxyNoDataRead` if nothing arrived, with `ProxyFillBuffer` if the
  buffer was only partly filled, and with `ProxyRead(e)` if the primitive
  failed with `e`.
- `write_all` keeps calling `write` on the unsent tail until nothing
  remains. It fails with `WriteZero` if the primitive accepts 0 bytes, and
  it passes a primitive error through unchanged.

This project models that layer and the crate's `Error` type with its
`Display` messages.

- `errors.dfy`, module `Errors`: the `Error` enum as a datatype, the
  crate's `Result<T>`, and `Message`, the text `Display::fmt` writes.
  The lemmas state each message and prove that messages are
  unambiguous: equal messages mean equal errors, wrapped causes included.
- `proxy.dfy`, module `Proxy`: a channel is a class that replays a script
  of primitive outcomes. `Reader` holds `ReadStep`s: a chunk of bytes,
  where the empty chunk is `Ok(0)`, or a fault. `Writer` holds
  `WriteStep`s: room for some bytes, where room 0 is `Ok(0)`, or a fault.
  The primitives are methods of these classes. `ReadExact` and `WriteAll`
  are the source's default methods, written as the same loops and
  verified for every script. Their contracts use a view of the script
  as a stream:
  - `Stream`: the bytes delivered before the stream stops.
  - `Room`: the bytes accepted before the stream stops.
  - `End` / `Halt`: why the stream stops, either `Eof` or `Failed(e)`.
  - `After` / `AfterWrite`: the script entries that follow the stop.
- `scenarios.dfy`, module `Scenarios`: client methods with concrete peers:
  a peer that never speaks, a 4-byte buffer filled from two chunks, a peer that
  fragments arbitrary data in arbitrary pieces, a truncated
  payload, a failing socket, a stalled sink, a sink that takes arbitrary
  partial writes, and a write followed by a flush. Their assertions follow from the contracts alone.

The primitives promise never to report more bytes than the space they
were given. In Rust, `read_exact` and `write_all` rely on this: they
re-slice with `tmp[n..]` and `buf[n..]`, which would panic otherwise.
Here it is part of the `ensures` of `Reader.ProxyRead` and `Writer.Write`.
A scripted chunk that is larger than the free space hands out only what
fits. The rest stays at the head of the script, so no byte of the stream
is lost.

`write_all` never calls `flush`: bytes it hands to the primitive are
accepted, not necessarily delivered, and the contract of `WriteAll` says
so. A caller that needs delivery flushes afterwards.

`MessageInjective` is proved with a small device, `MessageKey`: every
message has at least 16 characters, and its characters at positions 0,
10, 11 and 15 already tell the variants apart. Nothing outside that
proof relies on these positions.

## Model

| member | source | states |
|---|---|---|
| `Proxy.Reader.ProxyRead` | svsm-attest/src/proxy.rs:18-19 | the read primitive reports at most the free space of the slice; the reported bytes are the next bytes of the stream, in order; 0 means the peer has closed, and the close is consumed; an error consumes exactly the failing answer |
| `Proxy.Reader.ReadExact` | svsm-attest/src/proxy.rs:23-46 | succeeds exactly when the stream holds at least the buffer's length; the buffer then holds the next bytes of the stream, in order, and the rest of the stream is kept; an empty buffer returns Ok without calling the primitive; on failure the buffer holds all the bytes the stream had; the failure is `ProxyRead(e)` when the primitive failed with `e`, `ProxyNoDataRead` when the peer closed before sending anything, and `ProxyFillBuffer` when it closed part-way; no answer after the stop is requested |
| `Proxy.FragmentStream` | svsm-attest/src/proxy.rs:25-35 | however the peer cuts its bytes into chunks, successive chunks join up contiguously and in order, and the stream ends where the peer stopped; so `read_exact` sees only the byte stream, not its fragmentation |
| `Proxy.Writer.Write` | svsm-attest/src/proxy.rs:60-61 | the write primitive accepts a prefix of the offered bytes, never more than offered; 0 for a non-empty offer means the peer accepts no more; an error accepts nothing |
| `Proxy.AcceptsRoom` | svsm-attest/src/proxy.rs:69-74 | however the peer splits its capacity into partial writes, it accepts their total and stops where it would have stopped; so `write_all` depends only on how many bytes the peer takes, not on how it splits them |
| `Proxy.Writer.Flush` | svsm-attest/src/proxy.rs:63-65 | flush returns the channel's flush outcome, and on success everything accepted so far is delivered |
| `Proxy.Writer.WriteAll` | svsm-attest/src/proxy.rs:67-78 | succeeds exactly when the peer accepts all the bytes; the accepted bytes are then exactly the buffer, in order; an empty buffer returns Ok without calling the primitive; on failure the peer has taken as much as it would; a primitive error comes back unwrapped, and a 0-byte write gives `WriteZero`; flush is never called, so nothing new is delivered |
| `Errors.Message` | svsm-attest/src/error.rs:36-58 | the text each variant displays, recursive only through `ProxyRead`; no message is shorter than "unable to fill buffer" (21 characters), so no error displays as an empty line |
| `Errors.MessageInjective` | svsm-attest/src/error.rs:36-58 | the messages are unambiguous: two errors with the same message are equal up to the display text of their `io::Error` / `serde_json::Error` payloads, including every cause wrapped in `ProxyRead`; in particular the payload-free variants have pairwise distinct messages |
| `Errors.WrappedReadMessage` | svsm-attest/src/error.rs:39 | a read failure wrapped k times displays k copies of "unable to read buffer: " followed by the innermost cause's message |
| `Errors.ReadFailurePrefix` | svsm-attest/src/error.rs:38-56 | a message starts with "unable to read buffer: " exactly when the error is `ProxyRead`; no other variant's message starts that way |
| `Errors.FixedMessages` | svsm-attest/src/error.rs:40-50 | `ProxyNoDataRead` shows "no data read from buffer" and `ProxyFillBuffer` shows "unable to fill buffer", two different texts; `IoLenSerialization` shows "unable to convert input length to u32"; `WriteZero` shows "wrote zero bytes to proxy" |
| `Errors.PrefixedMessages` | svsm-attest/src/error.rs:44-55 | each foreign-payload variant shows its fixed prefix followed by the payload's own text: "unable to read from unix socket: ", "unable to write to unix socket: ", "unable to flush unix socket: ", and the JSON deserialize and serialize prefixes |

## Left out

- The `UnixStream` implementations of the two traits (svsm-attest/src/proxy.rs:49-54, 81-90) are not modelled. They are thin wrappers over std socket I/O. They map failures to `UnixSocketRead`, `UnixSocketWrite` and `UnixSocketFlush`. In the model, such errors are simply what a script's fault carries.
- The traits themselves are not modelled as abstract interfaces. Each is one concrete scripted class, and its primitives are methods whose contracts say what any channel must guarantee. The default methods are verified against every script, not against every implementation.
- Proxy.Reader.ReadExact: the promise that bytes past the delivered ones stay untouched holds for the scripted channel. That channel writes only the bytes it reports, while the Rust trait lets `proxy_read` write anywhere in the slice it is given.
- Rust re-binds `buf` to its unfilled tail in `read_exact`. Dafny cannot re-slice a mutable array, so the model keeps an offset into the array. That offset is also the byte counter `read`. `write_all` takes an immutable slice, which is modelled as a sequence and re-bound as in Rust.
- Proxy.Writer.Flush: the flush outcome is fixed when the channel is built, so a channel whose flush fails once and later succeeds is not scripted. `write_all` never flushes, so this does not affect it.
- The call counters `calls` and `flushes` and the `delivered` bytes are bookkeeping. They exist so the contracts can say which primitives ran. A script that runs out answers `Ok(0)`, as a peer that has gone away would.
- `io::Error` and `serde_json::Error` are opaque. They are known only by their display text (`IoError`, `JsonError`). The `#[cfg(feature = "std")]` gating of the socket variants is ignored, so all variants are present.
- `proxy/src/main.rs` is not part of this model: argument parsing, logging, removing the socket file, binding the listener, the thread-per-connection accept loop, and a worker that is only `todo!()`. That is process I/O and concurrency, with no logic to verify.
- `svsm-attest/src/lib.rs` (`SvsmProxyInput`) is not part of this model. It is a serde-derived struct over foreign types and holds no logic. Its JSON encoding belongs to serde_json.
- The length-prefixed framing codec, the output message and the per-connection worker are not in the source files this model covers, so they are not modelled. In particular, no byte order is chosen for a length prefix.
