/**
 * The error taxonomy of the attestation transport (svsm-attest/src/error.rs):
 * the `Error` enum, the crate's `Result` alias, and the `Display`
 * rendering of each error as a human-readable message.
 */
module Errors {

  /** An `io::Error` from the hosted socket, known here only by its display text. */
  datatype IoError = IoError(text: string)

  /** A `serde_json::Error`, known here only by its display text. */
  datatype JsonError = JsonError(text: string)

  /**
   * Every failure the transport and framing layers report. `ProxyRead`
   * wraps the error its read primitive returned, so the type is recursive.
   */
  datatype Error =
    | ProxyRead(inner: Error)
    | ProxyNoDataRead
    | ProxyFillBuffer
    | UnixSocketRead(io: IoError)
    | IoLenSerialization
    | JsonDeserialize(json: JsonError)
    | WriteZero
    | UnixSocketWrite(io: IoError)
    | UnixSocketFlush(io: IoError)
    | JsonSerialize(json: JsonError)

  /** The crate-wide `Result<T>`, whose error side is always `Error`. */
  datatype Result<T> = Ok(value: T) | Err(error: Error)

  const ReadBufferPrefix: string := "unable to read buffer: "
  const SocketReadPrefix: string := "unable to read from unix socket: "
  // Written in two pieces: the verifier reasons about one 50-character literal poorly.
  const DeserializePrefix: string := "unable to deserialize " + "SVSM proxy input from JSON: "
  const SocketWritePrefix: string := "unable to write to unix socket: "
  const SocketFlushPrefix: string := "unable to flush unix socket: "
  const SerializePrefix: string := "unable to serialize to JSON: "

  /**
   * `Display::fmt`: the text written for an error. No error displays as an
   * empty or near-empty line: the shortest message, "unable to fill
   * buffer", has 21 characters.
   */
  function Message(e: Error): (m: string)
    ensures |m| >= 21
  {
    match e
    case ProxyRead(inner) => ReadBufferPrefix + Message(inner)
    case ProxyNoDataRead => "no data read from buffer"
    case ProxyFillBuffer => "unable to fill buffer"
    case UnixSocketRead(io) => SocketReadPrefix + io.text
    case IoLenSerialization => "unable to convert input length to u32"
    case JsonDeserialize(json) => DeserializePrefix + json.text
    case WriteZero => "wrote zero bytes to proxy"
    case UnixSocketWrite(io) => SocketWritePrefix + io.text
    case UnixSocketFlush(io) => SocketFlushPrefix + io.text
    case JsonSerialize(json) => SerializePrefix + json.text
  }

  /** `e` wrapped in `k` layers of `ProxyRead`. */
  function Wrapped(e: Error, k: nat): Error
  {
    if k == 0 then e else ProxyRead(Wrapped(e, k - 1))
  }

  /** `s` repeated `k` times. */
  function Repeat(s: string, k: nat): string
  {
    if k == 0 then [] else s + Repeat(s, k - 1)
  }

  /** A read failure shows the read prefix followed by its cause's message. */
  lemma ReadMessage(inner: Error)
    ensures Message(ProxyRead(inner)) == ReadBufferPrefix + Message(inner)
  {
  }

  /**
   * A read failure nested `k` times shows `k` copies of the read prefix
   * followed by the message of the innermost cause.
   */
  lemma {:induction false} WrappedReadMessage(e: Error, k: nat)
    ensures Message(Wrapped(e, k)) == Repeat(ReadBufferPrefix, k) + Message(e)
  {
    if k > 0 {
      var p, m, r := ReadBufferPrefix, Message(e), Repeat(ReadBufferPrefix, k - 1);
      WrappedReadMessage(e, k - 1);
      ReadMessage(Wrapped(e, k - 1));
      assert p + (r + m) == (p + r) + m;
    }
  }

  /**
   * The characters at positions 0, 10, 11 and 15 of a message: enough to
   * tell every variant apart ("unable to read b..." against "unable to
   * read f...", "unable to fi..." against "unable to fl...").
   */
  function Probe(s: string): string
    requires |s| >= 16
  {
    [s[0], s[10], s[11], s[15]]
  }

  /** The probe of each variant's message. */
  function Key(e: Error): string
  {
    match e
    case ProxyRead(_) => "ureb"
    case ProxyNoDataRead => "nado"
    case ProxyFillBuffer => "ufib"
    case UnixSocketRead(_) => "uref"
    case IoLenSerialization => "ucor"
    case JsonDeserialize(_) => "udei"
    case WriteZero => "w bs"
    case UnixSocketWrite(_) => "uwr "
    case UnixSocketFlush(_) => "ufl "
    case JsonSerialize(_) => "usel"
  }

  lemma MessageKey(e: Error)
    ensures |Message(e)| >= 16 && Probe(Message(e)) == Key(e)
  {
    match e
    case ProxyRead(inner) => ProbeOfConcat(ReadBufferPrefix, Message(inner));
    case UnixSocketRead(io) => ProbeOfConcat(SocketReadPrefix, io.text);
    case JsonDeserialize(json) =>
      ProbeOfConcat(DeserializePrefix, json.text);
    case UnixSocketWrite(io) => ProbeOfConcat(SocketWritePrefix, io.text);
    case UnixSocketFlush(io) => ProbeOfConcat(SocketFlushPrefix, io.text);
    case JsonSerialize(json) => ProbeOfConcat(SerializePrefix, json.text);
    case _ =>
  }

  lemma ProbeOfConcat(p: string, x: string)
    requires |p| >= 16
    ensures Probe(p + x) == Probe(p)
  {
  }

  /** Two errors with the same key are the same variant. */
  lemma KeyDeterminesVariant(e1: Error, e2: Error)
    requires Key(e1) == Key(e2)
    ensures e1.ProxyRead? == e2.ProxyRead?
    ensures e1.ProxyNoDataRead? == e2.ProxyNoDataRead?
    ensures e1.ProxyFillBuffer? == e2.ProxyFillBuffer?
    ensures e1.UnixSocketRead? == e2.UnixSocketRead?
    ensures e1.IoLenSerialization? == e2.IoLenSerialization?
    ensures e1.JsonDeserialize? == e2.JsonDeserialize?
    ensures e1.WriteZero? == e2.WriteZero?
    ensures e1.UnixSocketWrite? == e2.UnixSocketWrite?
    ensures e1.UnixSocketFlush? == e2.UnixSocketFlush?
    ensures e1.JsonSerialize? == e2.JsonSerialize?
  {
  }

  /**
   * Messages are unambiguous: an error is determined by its message up to
   * the display text of its foreign payloads, including every wrapped
   * cause. Two distinct `io::Error`s with the same text are identified,
   * since `IoError` and `JsonError` are nothing but that text.
   */
  lemma {:induction false} MessageInjective(e1: Error, e2: Error)
    requires Message(e1) == Message(e2)
    ensures e1 == e2
  {
    MessageKey(e1);
    MessageKey(e2);
    KeyDeterminesVariant(e1, e2);
    var m := Message(e1);
    match e1
    case ProxyRead(i1) =>
      assert Message(i1) == m[|ReadBufferPrefix|..];
      assert Message(e2.inner) == m[|ReadBufferPrefix|..];
      MessageInjective(i1, e2.inner);
    case UnixSocketRead(io) =>
      assert io.text == m[|SocketReadPrefix|..] == e2.io.text;
    case JsonDeserialize(json) =>
      assert json.text == m[|DeserializePrefix|..] == e2.json.text;
    case UnixSocketWrite(io) =>
      assert io.text == m[|SocketWritePrefix|..] == e2.io.text;
    case UnixSocketFlush(io) =>
      assert io.text == m[|SocketFlushPrefix|..] == e2.io.text;
    case JsonSerialize(json) =>
      assert json.text == m[|SerializePrefix|..] == e2.json.text;
    case _ =>
  }

  /**
   * A message begins with "unable to read buffer: " exactly when the
   * error is a wrapped read-primitive failure.
   */
  lemma ReadFailurePrefix(e: Error)
    ensures ReadBufferPrefix <= Message(e) <==> e.ProxyRead?
  {
    MessageKey(e);
    if ReadBufferPrefix <= Message(e) {
      assert Message(e)[..|ReadBufferPrefix|] == ReadBufferPrefix;
      KeyDeterminesVariant(e, ProxyRead(e));
    }
    if e.ProxyRead? {
      assert Message(e) == ReadBufferPrefix + Message(e.inner);
    }
  }

  /**
   * The fixed messages of the payload-free variants. The two short-read
   * outcomes render differently, so "peer sent nothing" and "peer stopped
   * part-way" stay distinguishable in logs.
   */
  lemma FixedMessages()
    ensures Message(ProxyNoDataRead) == "no data read from buffer"
    ensures Message(ProxyFillBuffer) == "unable to fill buffer"
    ensures Message(IoLenSerialization) == "unable to convert input length to u32"
    ensures Message(WriteZero) == "wrote zero bytes to proxy"
    ensures Message(ProxyNoDataRead) != Message(ProxyFillBuffer)
  {
  }

  /** Payload-carrying variants: a fixed prefix followed by the payload's own text. */
  lemma PrefixedMessages(io: IoError, json: JsonError)
    ensures Message(UnixSocketRead(io)) == SocketReadPrefix + io.text
    ensures Message(UnixSocketWrite(io)) == SocketWritePrefix + io.text
    ensures Message(UnixSocketFlush(io)) == SocketFlushPrefix + io.text
    ensures Message(JsonDeserialize(json)) == DeserializePrefix + json.text
    ensures Message(JsonSerialize(json)) == SerializePrefix + json.text
  {
  }
}
