/** The `loglib` client object: its fields, and every operation of the
    class, each proved to change its state as the delivery model in
    `Transport` and the frame layouts in `Wire` say. The socket and the
    filesystem are replaced by an `Outcomes` argument; the frames the daemon
    receives are kept in the ghost field `wire`. */
module Client {
  import opened Wire
  import opened Transport
  import Frames

  class LogLib {
    /** STRICT_REGISTRATION, a flag fixed when the client is built. */
    const strictRegistration: bool
    var ready: bool
    /** The backlog queue, front first. */
    var buffer: seq<Bytes>
    var defaultName: Bytes
    var minLogLevel: LogLevel
    /** Names registered through registerLogger (used in strict mode). */
    var loggerList: set<Bytes>
    /** Every frame the daemon has received, in order. */
    ghost var wire: seq<Bytes>

    ghost predicate Valid()
      reads this
    {
      |buffer| <= MAX_BUFFER_LENGTH
    }

    ghost function State(): Link
      reads this
    {
      Link(ready, buffer, wire)
    }

    /** sendLog's two early returns: an empty name, and in strict mode a name
        that was never registered. */
    predicate Accepts(name: Bytes)
      reads this
    {
      name != [] && (!strictRegistration || name in loggerList)
    }

    /** The level guard of debug, info, warning and error
        (`if (minLogLevel > level) return;`). */
    predicate Passes(level: LogLevel)
      reads this
    {
      !(minLogLevel.Rank() > level.Rank())
    }

    /** What sendLog(msg, level, name) does to the link. */
    ghost function AfterSendLog(msg: Bytes, level: LogLevel, name: Bytes, env: Outcomes): Link
      requires Accepts(name) ==> LogMessageFits(name, |defaultName|, msg)
      reads this
    {
      if Accepts(name) then Deliver(State(), EncodeLogMessage(name, |defaultName|, msg, level), env)
      else State()
    }

    /** loglib(): the initial field values, then one connection attempt. */
    constructor (strictRegistration: bool, env: Outcomes)
      ensures Valid()
      ensures this.strictRegistration == strictRegistration
      ensures State() == Link(env.Connects(), [], [])
      ensures defaultName == [] && minLogLevel == LogLevel.Info && loggerList == {}
    {
      this.strictRegistration := strictRegistration;
      ready := false;
      buffer := [];
      defaultName := [];
      minLogLevel := LogLevel.Info;
      loggerList := {};
      wire := [];
      new;
      TrySetupConnection(env);
    }

    method TrySetupConnection(env: Outcomes)
      modifies this`ready
      ensures ready == (old(ready) || env.Connects())
    {
      if !env.endpointExists {
        return;
      }
      if !env.socketOpens {
        return;
      }
      if !env.connects {
        return;
      }
      ready := true;
    }

    method SendMessage(message: Bytes, env: Outcomes)
      requires Valid()
      modifies this`ready, this`buffer, this`wire
      ensures Valid()
      ensures State() == Deliver(old(State()), message, env)
    {
      if !ready {
        TrySetupConnection(env);
      }
      if ready {
        if env.sendSucceeds {
          wire := wire + [message];
        } else {
          ready := false;
        }
      } else {
        if |buffer| < MAX_BUFFER_LENGTH {
          buffer := buffer + [message];
        }
      }
    }

    method SendLog(msg: Bytes, level: LogLevel, name: Bytes, env: Outcomes)
      requires Valid()
      requires Accepts(name) ==> LogMessageFits(name, |defaultName|, msg)
      modifies this`ready, this`buffer, this`wire
      ensures Valid()
      ensures State() == old(AfterSendLog(msg, level, name, env))
    {
      if name == [] {
        return;
      }
      if strictRegistration && name !in loggerList {
        return;
      }
      var message := Frames.BuildLogMessage(name, |defaultName|, msg, level);
      SendMessage(message, env);
    }

    /** sendLog(msg, level): the default name; its frame is always
        self-consistent, since the name is the default name itself. */
    method SendLogDefault(msg: Bytes, level: LogLevel, env: Outcomes)
      requires Valid()
      requires Accepts(defaultName) ==> LogMessageFits(defaultName, |defaultName|, msg)
      modifies this`ready, this`buffer, this`wire
      ensures Valid()
      ensures State() == old(AfterSendLog(msg, level, defaultName, env))
    {
      SendLog(msg, level, defaultName, env);
    }

    /** flushBuffer, one oracle answer per turn of its loop. */
    method FlushBuffer(envs: seq<Outcomes>)
      requires Valid()
      modifies this`ready, this`buffer, this`wire
      ensures Valid()
      ensures State() == Flush(old(State()), envs)
    {
      if !ready || buffer == [] {
        return;
      }
      var i := 0;
      while buffer != [] && i < |envs|
        invariant Valid() && i <= |envs|
        invariant FlushLoop(State(), envs[i..]) == FlushLoop(old(State()), envs)
        decreases |envs| - i
      {
        ghost var before := State();
        SendMessage(buffer[0], envs[i]);
        buffer := buffer[1..];
        assert State() == FlushStep(before, envs[i]);
        assert envs[i..][1..] == envs[i + 1..];
        i := i + 1;
      }
    }

    method SetDefaultName(name: Bytes)
      modifies this`defaultName
      ensures defaultName == name
    {
      defaultName := name;
    }

    /** Deprecated alias of setDefaultName. */
    method SetName(name: Bytes)
      modifies this`defaultName
      ensures defaultName == name
    {
      SetDefaultName(name);
    }

    method SetMinLogLevel(level: LogLevel)
      modifies this`minLogLevel
      ensures minLogLevel == level
    {
      minLogLevel := level;
    }

    method RegisterLogger(loggerType: LoggerType, name: Bytes, env: Outcomes)
      requires Valid()
      requires name != [] ==> NewLoggerFits(name)
      modifies this`ready, this`buffer, this`wire, this`loggerList
      ensures Valid()
      ensures name == [] ==> State() == old(State()) && loggerList == old(loggerList)
      ensures name != [] ==> State() == Deliver(old(State()), EncodeNewLogger(name, loggerType), env)
      // recorded whatever became of the frame, and only ever added to
      ensures name != [] ==> loggerList == if strictRegistration then old(loggerList) + {name} else old(loggerList)
    {
      if name == [] {
        return;
      }
      var message := Frames.BuildNewLogger(name, loggerType);
      SendMessage(message, env);
      if strictRegistration {
        loggerList := loggerList + {name};
      }
    }

    /** registerLogger(loggerType): registers the default name. */
    method RegisterLoggerDefault(loggerType: LoggerType, env: Outcomes)
      requires Valid()
      requires defaultName != [] ==> NewLoggerFits(defaultName)
      modifies this`ready, this`buffer, this`wire, this`loggerList
      ensures Valid()
      ensures defaultName == [] ==> State() == old(State()) && loggerList == old(loggerList)
      ensures defaultName != [] ==> State() == Deliver(old(State()), EncodeNewLogger(defaultName, loggerType), env)
      ensures defaultName != [] ==>
                loggerList == if strictRegistration then old(loggerList) + {defaultName} else old(loggerList)
    {
      RegisterLogger(loggerType, defaultName, env);
    }

    method DebugNamed(msg: Bytes, name: Bytes, env: Outcomes)
      requires Valid()
      requires Passes(LogLevel.Debug) && Accepts(name) ==> LogMessageFits(name, |defaultName|, msg)
      modifies this`ready, this`buffer, this`wire
      ensures Valid()
      ensures !Passes(LogLevel.Debug) ==> State() == old(State())
      ensures Passes(LogLevel.Debug) ==> State() == old(AfterSendLog(msg, LogLevel.Debug, name, env))
    {
      if minLogLevel.Rank() > LogLevel.Debug.Rank() {
        return;
      }
      SendLog(msg, LogLevel.Debug, name, env);
    }

    method InfoNamed(msg: Bytes, name: Bytes, env: Outcomes)
      requires Valid()
      requires Passes(LogLevel.Info) && Accepts(name) ==> LogMessageFits(name, |defaultName|, msg)
      modifies this`ready, this`buffer, this`wire
      ensures Valid()
      ensures !Passes(LogLevel.Info) ==> State() == old(State())
      ensures Passes(LogLevel.Info) ==> State() == old(AfterSendLog(msg, LogLevel.Info, name, env))
    {
      if minLogLevel.Rank() > LogLevel.Info.Rank() {
        return;
      }
      SendLog(msg, LogLevel.Info, name, env);
    }

    method WarningNamed(msg: Bytes, name: Bytes, env: Outcomes)
      requires Valid()
      requires Passes(LogLevel.Warning) && Accepts(name) ==> LogMessageFits(name, |defaultName|, msg)
      modifies this`ready, this`buffer, this`wire
      ensures Valid()
      ensures !Passes(LogLevel.Warning) ==> State() == old(State())
      ensures Passes(LogLevel.Warning) ==> State() == old(AfterSendLog(msg, LogLevel.Warning, name, env))
    {
      if minLogLevel.Rank() > LogLevel.Warning.Rank() {
        return;
      }
      SendLog(msg, LogLevel.Warning, name, env);
    }

    method ErrorNamed(msg: Bytes, name: Bytes, env: Outcomes)
      requires Valid()
      requires Passes(LogLevel.Error) && Accepts(name) ==> LogMessageFits(name, |defaultName|, msg)
      modifies this`ready, this`buffer, this`wire
      ensures Valid()
      ensures !Passes(LogLevel.Error) ==> State() == old(State())
      ensures Passes(LogLevel.Error) ==> State() == old(AfterSendLog(msg, LogLevel.Error, name, env))
    {
      if minLogLevel.Rank() > LogLevel.Error.Rank() {
        return;
      }
      SendLog(msg, LogLevel.Error, name, env);
    }

    /** fatal has no level guard: it is forwarded whatever minLogLevel is. */
    method FatalNamed(msg: Bytes, name: Bytes, env: Outcomes)
      requires Valid()
      requires Accepts(name) ==> LogMessageFits(name, |defaultName|, msg)
      modifies this`ready, this`buffer, this`wire
      ensures Valid()
      ensures State() == old(AfterSendLog(msg, LogLevel.Fatal, name, env))
    {
      SendLog(msg, LogLevel.Fatal, name, env);
    }

    method Debug(msg: Bytes, env: Outcomes)
      requires Valid()
      requires Passes(LogLevel.Debug) && Accepts(defaultName) ==> LogMessageFits(defaultName, |defaultName|, msg)
      modifies this`ready, this`buffer, this`wire
      ensures Valid()
      ensures !Passes(LogLevel.Debug) ==> State() == old(State())
      ensures Passes(LogLevel.Debug) ==> State() == old(AfterSendLog(msg, LogLevel.Debug, defaultName, env))
    {
      DebugNamed(msg, defaultName, env);
    }

    method Info(msg: Bytes, env: Outcomes)
      requires Valid()
      requires Passes(LogLevel.Info) && Accepts(defaultName) ==> LogMessageFits(defaultName, |defaultName|, msg)
      modifies this`ready, this`buffer, this`wire
      ensures Valid()
      ensures !Passes(LogLevel.Info) ==> State() == old(State())
      ensures Passes(LogLevel.Info) ==> State() == old(AfterSendLog(msg, LogLevel.Info, defaultName, env))
    {
      InfoNamed(msg, defaultName, env);
    }

    method Warning(msg: Bytes, env: Outcomes)
      requires Valid()
      requires Passes(LogLevel.Warning) && Accepts(defaultName) ==> LogMessageFits(defaultName, |defaultName|, msg)
      modifies this`ready, this`buffer, this`wire
      ensures Valid()
      ensures !Passes(LogLevel.Warning) ==> State() == old(State())
      ensures Passes(LogLevel.Warning) ==> State() == old(AfterSendLog(msg, LogLevel.Warning, defaultName, env))
    {
      WarningNamed(msg, defaultName, env);
    }

    method Error(msg: Bytes, env: Outcomes)
      requires Valid()
      requires Passes(LogLevel.Error) && Accepts(defaultName) ==> LogMessageFits(defaultName, |defaultName|, msg)
      modifies this`ready, this`buffer, this`wire
      ensures Valid()
      ensures !Passes(LogLevel.Error) ==> State() == old(State())
      ensures Passes(LogLevel.Error) ==> State() == old(AfterSendLog(msg, LogLevel.Error, defaultName, env))
    {
      ErrorNamed(msg, defaultName, env);
    }

    method Fatal(msg: Bytes, env: Outcomes)
      requires Valid()
      requires Accepts(defaultName) ==> LogMessageFits(defaultName, |defaultName|, msg)
      modifies this`ready, this`buffer, this`wire
      ensures Valid()
      ensures State() == old(AfterSendLog(msg, LogLevel.Fatal, defaultName, env))
    {
      FatalNamed(msg, defaultName, env);
    }

    /** The LOG_<LEVEL>_N(name, msg) macros: the name comes first and is
        passed on second, to the entry point of that level. */
    method LogNamed(level: LogLevel, name: Bytes, msg: Bytes, env: Outcomes)
      requires Valid()
      requires Passes(level) && Accepts(name) ==> LogMessageFits(name, |defaultName|, msg)
      modifies this`ready, this`buffer, this`wire
      ensures Valid()
      ensures !Passes(level) ==> State() == old(State())
      ensures Passes(level) ==> State() == old(AfterSendLog(msg, level, name, env))
    {
      match level
      case Debug => DebugNamed(msg, name, env);
      case Info => InfoNamed(msg, name, env);
      case Warning => WarningNamed(msg, name, env);
      case Error => ErrorNamed(msg, name, env);
      case Fatal => FatalNamed(msg, name, env);
    }
  }
}
