/** Client code that uses only the contracts of `Client.LogLib`: each
    assertion is a consequence a caller can draw without seeing the bodies. */
module Scenarios {
  import opened Wire
  import opened Transport
  import opened Client

  /** Strict mode with the daemon absent: an unregistered name is refused
      without I/O; once registered, its messages queue behind the
      registration, in call order. */
  method StrictRegistrationOffline(loggerType: LoggerType)
  {
    var offline := Outcomes(false, false, false, false);
    var svc: Bytes := [115, 118, 99];
    var other: Bytes := [111, 116, 104];
    var hi: Bytes := [104, 105];
    var log := new LogLib(true, offline);
    log.SetDefaultName(svc);

    log.InfoNamed(hi, other, offline);
    assert log.buffer == [] && log.wire == [];

    log.RegisterLogger(loggerType, svc, offline);
    assert svc in log.loggerList;
    assert log.buffer == [EncodeNewLogger(svc, loggerType)];

    log.InfoNamed(hi, svc, offline);
    assert log.buffer == [EncodeNewLogger(svc, loggerType), EncodeLogMessage(svc, 3, hi, LogLevel.Info)];
    assert log.wire == [] && !log.ready;
  }

  /** An empty default name: info(msg) is refused without I/O. Levels below
      the minimum are dropped, fatal never is. */
  method FilteringAndEmptyName()
  {
    var online := Outcomes(true, true, true, true);
    var hi: Bytes := [104, 105];
    var log := new LogLib(false, online);
    assert log.ready;

    log.Info(hi, online);
    assert log.wire == [];

    log.SetMinLogLevel(LogLevel.Error);
    log.SetMinLogLevel(LogLevel.Error);
    assert log.minLogLevel == LogLevel.Error;

    log.SetName([97]);
    log.Warning(hi, online);
    assert log.wire == [];
    log.Fatal(hi, online);
    assert log.wire == [EncodeLogMessage([97], 1, hi, LogLevel.Fatal)];
  }

  /** A name two bytes longer than the default name reaches the daemon as
      its first |defaultName| + 1 bytes: its last character and its
      terminator are cut. */
  method LongerNameIsCut()
  {
    var online := Outcomes(true, true, true, true);
    var log := new LogLib(false, online);
    log.SetDefaultName([97, 98]);
    log.ErrorNamed([120], [97, 98, 99, 100], online);
    var frame := EncodeLogMessage([97, 98, 99, 100], 2, [120], LogLevel.Error);
    assert log.wire == [frame];
    LogMessageNameIntact([97, 98, 99, 100], 2, [120], LogLevel.Error);
    assert DecodeFrame(frame).value.0.name == [97, 98, 99];
  }
}
