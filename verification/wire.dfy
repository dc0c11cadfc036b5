/** The wire format of the logging daemon's two requests, NEW_LOGGER and
    LOG_MESSAGE, as pure functions over byte sequences, with the decoder a
    daemon uses to cut a byte stream back into requests.

    Every integer field is one 32-bit word. The native byte order is modelled
    as little-endian; nothing proved here depends on that choice, only on the
    encoder and the decoder agreeing. The numeric codes of the enumerations
    live in log/enums.h, which is not part of this model: levels are sent as
    their ordinal (DEBUG = 0 .. FATAL = 4) and the two request types as 0 and
    1; the proofs only need the codes to be distinct. */
module Wire {

  newtype uint8 = x: int | 0 <= x < 0x100

  type Bytes = seq<uint8>

  datatype Option<+T> = None | Some(value: T)

  /** Largest value of a C++ `int`; the encoders keep every length below it. */
  const INT_MAX: nat := 0x7FFF_FFFF
  const WORD_LIMIT: nat := 0x1_0000_0000

  const NEW_LOGGER_CODE: nat := 0
  const LOG_MESSAGE_CODE: nat := 1

  /** logging::LOG_LEVEL, ordered DEBUG < INFO < WARNING < ERROR < FATAL. */
  datatype LogLevel = Debug | Info | Warning | Error | Fatal {
    function Rank(): (r: nat)
      ensures r < 5
      ensures r == 4 <==> this == Fatal
    {
      match this
      case Debug => 0
      case Info => 1
      case Warning => 2
      case Error => 3
      case Fatal => 4
    }
  }

  /** The level whose wire code is `code`, if there is one. */
  function LevelFromCode(code: nat): (r: Option<LogLevel>)
    ensures r.Some? <==> code < 5
    ensures r.Some? ==> r.value.Rank() == code
  {
    if code == 0 then Some(Debug)
    else if code == 1 then Some(Info)
    else if code == 2 then Some(Warning)
    else if code == 3 then Some(Error)
    else if code == 4 then Some(Fatal)
    else None
  }

  /** logging::LOGGER_TYPE is opaque to the client: it is carried as the
      32-bit value it has on the wire. */
  newtype LoggerType = x: int | 0 <= x < 0x1_0000_0000

  /** One 32-bit word, least significant byte first. */
  function Word(n: nat): (r: Bytes)
    requires n < WORD_LIMIT
    ensures |r| == 4
  {
    var n1 := n / 0x100;
    var n2 := n1 / 0x100;
    [(n % 0x100) as uint8, (n1 % 0x100) as uint8, (n2 % 0x100) as uint8, (n2 / 0x100) as uint8]
  }

  function WordValue(b: Bytes): (n: nat)
    requires |b| == 4
    ensures n < WORD_LIMIT
  {
    b[0] as nat + 0x100 * (b[1] as nat + 0x100 * (b[2] as nat + 0x100 * b[3] as nat))
  }

  lemma WordRoundTrip(n: nat)
    requires n < WORD_LIMIT
    ensures WordValue(Word(n)) == n
  {
    var n1 := n / 0x100;
    var n2 := n1 / 0x100;
    assert n == n % 0x100 + 0x100 * n1;
    assert n1 == n1 % 0x100 + 0x100 * n2;
    assert n2 == n2 % 0x100 + 0x100 * (n2 / 0x100);
  }

  /** The bytes `std::string::data()` exposes: the characters and the
      terminating NUL. */
  function CString(s: Bytes): (r: Bytes)
    ensures |r| == |s| + 1 && r[..|s|] == s && r[|s|] == 0
  {
    s + [0]
  }

  /** registerLogger holds the name length (with its NUL) in an `int`; the
      frame size is a `size_t`. */
  predicate NewLoggerFits(name: Bytes)
  {
    |name| + 1 <= INT_MAX
  }

  /** sendLog copies `defaultNameLength + 1` bytes out of `name.data()`; a
      shorter `name` makes that copy read past the string (undefined
      behaviour), so it is excluded. The frame size is computed in `int`. */
  predicate LogMessageFits(name: Bytes, defaultNameLength: nat, msg: Bytes)
  {
    defaultNameLength <= |name| && defaultNameLength + |msg| + 18 <= INT_MAX
  }

  /** The NEW_LOGGER frame registerLogger builds: request type, name length
      (terminator included), the name with its NUL, the logger type. */
  function EncodeNewLogger(name: Bytes, loggerType: LoggerType): (frame: Bytes)
    requires NewLoggerFits(name)
    ensures |frame| == 12 + |name| + 1
  {
    Word(NEW_LOGGER_CODE) + Word(|name| + 1) + CString(name) + Word(loggerType as nat)
  }

  /** The LOG_MESSAGE frame sendLog builds. As in the source, the name length
      field and the number of name bytes copied both come from the length of
      the DEFAULT name, not of `name`. */
  function EncodeLogMessage(name: Bytes, defaultNameLength: nat, msg: Bytes, level: LogLevel): (frame: Bytes)
    requires LogMessageFits(name, defaultNameLength, msg)
    ensures |frame| == 16 + (defaultNameLength + 1) + (|msg| + 1)
  {
    var nameLength := defaultNameLength + 1;
    Word(LOG_MESSAGE_CODE) + Word(nameLength) + CString(name)[..nameLength]
      + Word(|msg| + 1) + CString(msg) + Word(level.Rank())
  }

  /** A request as a daemon reads it off the wire; string fields keep the
      bytes exactly as sent, terminator included. */
  datatype Request =
    | NewLogger(name: Bytes, loggerType: LoggerType)
    | LogMessage(name: Bytes, msg: Bytes, level: LogLevel)

  /** Reads one frame from the front of `s` by its embedded lengths and says
      how many bytes it took. */
  function DecodeFrame(s: Bytes): (r: Option<(Request, nat)>)
    ensures r.Some? ==> 12 <= r.value.1 <= |s|
  {
    if |s| < 8 then None
    else
      var code := WordValue(s[..4]);
      var nameEnd := 8 + WordValue(s[4..8]);
      if |s| < nameEnd + 4 then None
      else
        var name := s[8..nameEnd];
        var next := WordValue(s[nameEnd..nameEnd + 4]);
        if code == NEW_LOGGER_CODE then
          Some((NewLogger(name, next as LoggerType), nameEnd + 4))
        else if code == LOG_MESSAGE_CODE then
          var msgEnd := nameEnd + 4 + next;
          if |s| < msgEnd + 4 then None
          else
            match LevelFromCode(WordValue(s[msgEnd..msgEnd + 4]))
            case None => None
            case Some(level) => Some((LogMessage(name, s[nameEnd + 4..msgEnd], level), msgEnd + 4))
        else None
  }

  /** Slicing an append: the part before the seam comes from `x`, the
      part after it is `y`. */
  lemma Seam(x: Bytes, y: Bytes, i: nat, j: nat)
    requires i <= j <= |x|
    ensures (x + y)[i..j] == x[i..j]
    ensures (x + y)[|x|..] == y
  {
  }

  lemma NewLoggerLayout(name: Bytes, loggerType: LoggerType)
    requires NewLoggerFits(name)
    ensures var frame, n := EncodeNewLogger(name, loggerType), |name| + 1;
      && frame[..4] == Word(NEW_LOGGER_CODE)
      && frame[4..8] == Word(n)
      && frame[8..8 + n] == CString(name)
      && frame[8 + n..] == Word(loggerType as nat)
  {
    var n := |name| + 1;
    var a, b, c, d := Word(NEW_LOGGER_CODE), Word(n), CString(name), Word(loggerType as nat);
    var p2 := a + b;
    var p3 := p2 + c;
    var frame := p3 + d;
    Seam(p3, d, 8, 8 + n);
    Seam(p2, c, 4, 8);
    Seam(p3, d, 4, 8);
    Seam(p3, d, 0, 4);
    Seam(p2, c, 0, 4);
    Seam(a, b, 0, 4);
  }

  /** A NEW_LOGGER frame decodes to the name it was built from (with its NUL)
      and its logger type, whatever bytes follow it on the stream. */
  lemma NewLoggerRoundTrip(name: Bytes, loggerType: LoggerType, rest: Bytes)
    requires NewLoggerFits(name)
    ensures DecodeFrame(EncodeNewLogger(name, loggerType) + rest)
         == Some((NewLogger(CString(name), loggerType), 13 + |name|))
  {
    var frame := EncodeNewLogger(name, loggerType);
    var s, n := frame + rest, |name| + 1;
    NewLoggerLayout(name, loggerType);
    WordRoundTrip(NEW_LOGGER_CODE);
    WordRoundTrip(n);
    WordRoundTrip(loggerType as nat);
    assert s[..4] == frame[..4];
    assert s[4..8] == frame[4..8];
    assert s[8..8 + n] == frame[8..8 + n];
    assert s[8 + n..12 + n] == frame[8 + n..];
  }

  lemma LogMessageLayout(name: Bytes, defaultNameLength: nat, msg: Bytes, level: LogLevel)
    requires LogMessageFits(name, defaultNameLength, msg)
    ensures var frame, n, m := EncodeLogMessage(name, defaultNameLength, msg, level), defaultNameLength + 1, |msg| + 1;
      && frame[..4] == Word(LOG_MESSAGE_CODE)
      && frame[4..8] == Word(n)
      && frame[8..8 + n] == CString(name)[..n]
      && frame[8 + n..12 + n] == Word(m)
      && frame[12 + n..12 + n + m] == CString(msg)
      && frame[12 + n + m..] == Word(level.Rank())
  {
    var n, m := defaultNameLength + 1, |msg| + 1;
    var a, b, c := Word(LOG_MESSAGE_CODE), Word(n), CString(name)[..n];
    var d, e, f := Word(m), CString(msg), Word(level.Rank());
    var p2 := a + b;
    var p3 := p2 + c;
    var p4 := p3 + d;
    var p5 := p4 + e;
    var frame := p5 + f;
    assert frame == EncodeLogMessage(name, defaultNameLength, msg, level);
    // the level, then the message
    Seam(p5, f, 0, 0);
    Seam(p5, f, 12 + n, 12 + n + m);
    Seam(p4, e, 0, 0);
    // the message length word
    Seam(p5, f, 8 + n, 12 + n);
    Seam(p4, e, 8 + n, 12 + n);
    Seam(p3, d, 0, 0);
    // the name
    Seam(p5, f, 8, 8 + n);
    Seam(p4, e, 8, 8 + n);
    Seam(p3, d, 8, 8 + n);
    Seam(p2, c, 0, 0);
    // the two leading words
    Seam(p5, f, 0, 8);
    Seam(p4, e, 0, 8);
    Seam(p3, d, 0, 8);
    Seam(p2, c, 0, 8);
    Seam(a, b, 0, 4);
  }

  /** The decoder reads a LOG_MESSAGE by its fields wherever they come from. */
  lemma DecodeLogMessageFields(s: Bytes, nameField: Bytes, msgField: Bytes, level: LogLevel)
    requires |s| >= 16 + |nameField| + |msgField|
    requires WordValue(s[..4]) == LOG_MESSAGE_CODE
    requires WordValue(s[4..8]) == |nameField|
    requires s[8..8 + |nameField|] == nameField
    requires WordValue(s[8 + |nameField|..12 + |nameField|]) == |msgField|
    requires s[12 + |nameField|..12 + |nameField| + |msgField|] == msgField
    requires WordValue(s[12 + |nameField| + |msgField|..16 + |nameField| + |msgField|]) == level.Rank()
    ensures DecodeFrame(s) == Some((LogMessage(nameField, msgField, level), 16 + |nameField| + |msgField|))
  {
    var code := LevelFromCode(level.Rank());
    assert code == Some(level);
  }

  /** Any bytes laid out as a LOG_MESSAGE frame decode to its fields,
      whatever follows them. */
  lemma LaidOutLogMessageDecodes(frame: Bytes, rest: Bytes, nameField: Bytes, msgField: Bytes, level: LogLevel)
    requires |nameField| < WORD_LIMIT && |msgField| < WORD_LIMIT
    requires |frame| == 16 + |nameField| + |msgField|
    requires frame[..4] == Word(LOG_MESSAGE_CODE)
    requires frame[4..8] == Word(|nameField|)
    requires frame[8..8 + |nameField|] == nameField
    requires frame[8 + |nameField|..12 + |nameField|] == Word(|msgField|)
    requires frame[12 + |nameField|..12 + |nameField| + |msgField|] == msgField
    requires frame[12 + |nameField| + |msgField|..] == Word(level.Rank())
    ensures DecodeFrame(frame + rest) == Some((LogMessage(nameField, msgField, level), |frame|))
  {
    var n, m := |nameField|, |msgField|;
    WordRoundTrip(LOG_MESSAGE_CODE);
    WordRoundTrip(n);
    WordRoundTrip(m);
    WordRoundTrip(level.Rank());
    Seam(frame, rest, 0, 4);
    Seam(frame, rest, 4, 8);
    Seam(frame, rest, 8, 8 + n);
    Seam(frame, rest, 8 + n, 12 + n);
    Seam(frame, rest, 12 + n, 12 + n + m);
    Seam(frame, rest, 12 + n + m, 16 + n + m);
    assert frame[12 + n + m..16 + n + m] == frame[12 + n + m..];
    DecodeLogMessageFields(frame + rest, nameField, msgField, level);
  }

  /** A LOG_MESSAGE frame always decodes by its embedded lengths, whatever
      follows it: the message and level come back exactly, and the name field
      holds the first `defaultNameLength + 1` bytes of the name and its NUL. */
  lemma LogMessageRoundTrip(name: Bytes, defaultNameLength: nat, msg: Bytes, level: LogLevel, rest: Bytes)
    requires LogMessageFits(name, defaultNameLength, msg)
    ensures DecodeFrame(EncodeLogMessage(name, defaultNameLength, msg, level) + rest)
         == Some((LogMessage(CString(name)[..defaultNameLength + 1], CString(msg), level),
                  18 + defaultNameLength + |msg|))
  {
    var frame := EncodeLogMessage(name, defaultNameLength, msg, level);
    var nameField, msgField := CString(name)[..defaultNameLength + 1], CString(msg);
    assert |frame| == 18 + defaultNameLength + |msg|;
    assert DecodeFrame(frame + rest) == Some((LogMessage(nameField, msgField, level), |frame|)) by {
      LogMessageLayout(name, defaultNameLength, msg, level);
      assert |nameField| == defaultNameLength + 1;
      LaidOutLogMessageDecodes(frame, rest, nameField, msgField, level);
    }
  }

  /** The name a LOG_MESSAGE frame carries is the caller's name, terminator
      included, exactly when that name is as long as the default name. */
  lemma LogMessageNameIntact(name: Bytes, defaultNameLength: nat, msg: Bytes, level: LogLevel)
    requires LogMessageFits(name, defaultNameLength, msg)
    ensures DecodeFrame(EncodeLogMessage(name, defaultNameLength, msg, level)).Some?
    ensures DecodeFrame(EncodeLogMessage(name, defaultNameLength, msg, level)).value.0.name == CString(name)
        <==> |name| == defaultNameLength
    // a longer name arrives as its first defaultNameLength + 1 bytes, with no terminator
    ensures |name| > defaultNameLength ==>
              DecodeFrame(EncodeLogMessage(name, defaultNameLength, msg, level)).value.0.name
              == name[..defaultNameLength + 1]
  {
    var frame := EncodeLogMessage(name, defaultNameLength, msg, level);
    LogMessageRoundTrip(name, defaultNameLength, msg, level, []);
    assert frame + [] == frame;
    if |name| != defaultNameLength {
      assert |CString(name)[..defaultNameLength + 1]| != |CString(name)|;
    }
    if |name| > defaultNameLength {
      assert CString(name)[..defaultNameLength + 1] == name[..defaultNameLength + 1];
    }
  }

  /** The daemon's side of the stream: frames back to back, nothing between. */
  function Flatten(frames: seq<Bytes>): (s: Bytes)
    ensures frames == [] ==> s == []
  {
    if frames == [] then [] else frames[0] + Flatten(frames[1..])
  }

  function DecodeStream(s: Bytes): (r: Option<seq<Request>>)
    decreases |s|
  {
    if s == [] then Some([])
    else
      match DecodeFrame(s)
      case None => None
      case Some((request, used)) =>
        match DecodeStream(s[used..])
        case None => None
        case Some(requests) => Some([request] + requests)
  }

  /** `frame` decodes to `request`, consuming exactly itself, whatever follows. */
  ghost predicate Parses(frame: Bytes, request: Request)
  {
    forall rest :: DecodeFrame(frame + rest) == Some((request, |frame|))
  }

  lemma NewLoggerParses(name: Bytes, loggerType: LoggerType)
    requires NewLoggerFits(name)
    ensures Parses(EncodeNewLogger(name, loggerType), NewLogger(CString(name), loggerType))
  {
    forall rest: Bytes {
      NewLoggerRoundTrip(name, loggerType, rest);
    }
  }

  lemma LogMessageParses(name: Bytes, defaultNameLength: nat, msg: Bytes, level: LogLevel)
    requires LogMessageFits(name, defaultNameLength, msg)
    ensures Parses(EncodeLogMessage(name, defaultNameLength, msg, level),
                   LogMessage(CString(name)[..defaultNameLength + 1], CString(msg), level))
  {
    forall rest: Bytes {
      LogMessageRoundTrip(name, defaultNameLength, msg, level, rest);
    }
  }

  /** Frames written back to back are recovered one by one, in order, from
      their embedded lengths alone. */
  lemma {:induction false} StreamRoundTrip(frames: seq<Bytes>, requests: seq<Request>)
    requires |frames| == |requests|
    requires forall i :: 0 <= i < |frames| ==> Parses(frames[i], requests[i])
    ensures DecodeStream(Flatten(frames)) == Some(requests)
  {
    if frames != [] {
      var s := Flatten(frames);
      var tail := Flatten(frames[1..]);
      assert Parses(frames[0], requests[0]);
      assert DecodeFrame(frames[0] + tail) == Some((requests[0], |frames[0]|));
      assert s[|frames[0]|..] == tail;
      StreamRoundTrip(frames[1..], requests[1..]);
      assert [requests[0]] + requests[1..] == requests;
    }
  }
}
