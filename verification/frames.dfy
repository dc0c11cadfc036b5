/** The frames as the client actually builds them: a zeroed byte vector of
    the final size, filled field by field with `memcpy` at a running offset.
    Each builder is proved to produce exactly the frame `Wire` specifies. */
module Frames {
  import opened Wire

  /** memcpy(dst + offset, src, n): the first `n` bytes of `src` land at
      `offset`; every other byte of `dst` keeps its value. */
  method MemCopy(dst: array<uint8>, offset: nat, src: Bytes, n: nat)
    requires n <= |src| && offset + n <= dst.Length
    modifies dst
    ensures dst[..offset] == old(dst[..offset])
    ensures dst[offset..offset + n] == src[..n]
    ensures dst[offset + n..] == old(dst[offset + n..])
  {
    var i := 0;
    while i < n
      invariant 0 <= i <= n
      invariant dst[..offset] == old(dst[..offset])
      invariant dst[offset..offset + i] == src[..i]
      invariant dst[offset + i..] == old(dst[offset + i..])
    {
      dst[offset + i] := src[i];
      i := i + 1;
    }
  }

  /** A buffer that agrees with `frame` up to `offset`, and on the next `n`
      bytes, agrees with it up to `offset + n`. */
  lemma Grow(buffer: array<uint8>, frame: Bytes, offset: nat, n: nat)
    requires offset + n <= buffer.Length && offset + n <= |frame|
    requires buffer[..offset] == frame[..offset]
    requires buffer[offset..offset + n] == frame[offset..offset + n]
    ensures buffer[..offset + n] == frame[..offset + n]
  {
    assert buffer[..offset + n] == buffer[..offset] + buffer[offset..offset + n];
    assert frame[..offset + n] == frame[..offset] + frame[offset..offset + n];
  }

  /** One field of a frame: memcpy of `src[..n]` at `offset`, where `frame`
      holds exactly those bytes; the buffer then agrees with `frame` up to
      `offset + n`. */
  method Put(buffer: array<uint8>, offset: nat, src: Bytes, n: nat, ghost frame: Bytes)
    requires n <= |src| && offset + n <= buffer.Length && offset + n <= |frame|
    requires buffer[..offset] == frame[..offset]
    requires frame[offset..offset + n] == src[..n]
    modifies buffer
    ensures buffer[..offset + n] == frame[..offset + n]
  {
    MemCopy(buffer, offset, src, n);
    Grow(buffer, frame, offset, n);
  }

  /** The body of registerLogger up to sendMessage. */
  method BuildNewLogger(name: Bytes, loggerType: LoggerType) returns (message: Bytes)
    requires NewLoggerFits(name)
    ensures message == EncodeNewLogger(name, loggerType)
  {
    var messageSize := 4 * 3 + |name| + 1;
    var buffer := new uint8[messageSize];
    var nameLength := |name| + 1;
    ghost var frame := EncodeNewLogger(name, loggerType);
    NewLoggerLayout(name, loggerType);
    var offset := 0;
    Put(buffer, offset, Word(NEW_LOGGER_CODE), 4, frame);
    offset := offset + 4;
    Put(buffer, offset, Word(nameLength), 4, frame);
    offset := offset + 4;
    Put(buffer, offset, CString(name), nameLength, frame);
    offset := offset + nameLength;
    Put(buffer, offset, Word(loggerType as nat), 4, frame);
    assert offset + 4 == |frame| == buffer.Length;
    message := buffer[..];
    assert message == buffer[..offset + 4] == frame[..offset + 4] == frame;
  }

  /** The body of sendLog(msg, logLevel, name) up to sendMessage; the name
      length is that of the default name, as in the source. */
  method BuildLogMessage(name: Bytes, defaultNameLength: nat, msg: Bytes, level: LogLevel)
    returns (message: Bytes)
    requires LogMessageFits(name, defaultNameLength, msg)
    ensures message == EncodeLogMessage(name, defaultNameLength, msg, level)
  {
    var nameLength := defaultNameLength + 1;
    var msgLength := |msg| + 1;
    var messageSize := 4 * 4 + nameLength + msgLength;
    var buffer := new uint8[messageSize];
    ghost var frame := EncodeLogMessage(name, defaultNameLength, msg, level);
    LogMessageLayout(name, defaultNameLength, msg, level);
    var offset := 0;
    Put(buffer, offset, Word(LOG_MESSAGE_CODE), 4, frame);
    offset := offset + 4;
    Put(buffer, offset, Word(nameLength), 4, frame);
    offset := offset + 4;
    Put(buffer, offset, CString(name), nameLength, frame);
    offset := offset + nameLength;
    Put(buffer, offset, Word(msgLength), 4, frame);
    offset := offset + 4;
    Put(buffer, offset, CString(msg), msgLength, frame);
    offset := offset + msgLength;
    Put(buffer, offset, Word(level.Rank()), 4, frame);
    assert offset + 4 == |frame| == buffer.Length;
    message := buffer[..];
    assert message == buffer[..offset + 4] == frame[..offset + 4] == frame;
  }
}
