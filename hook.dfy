/**
 * The logrus hook: a cached connection to the Graylog endpoint, `connect` with its dial
 * loop, `Fire` (payload, framing, send loop) and `Levels`.
 */
module Grayloghook {
  import opened Wrappers
  import opened Logrus
  import opened Transport
  import Brackets
  import Payload
  import LevelFilter

  class GraylogHook {
    /** The cached connection; None until a dial succeeds. */
    var conn: Option<Conn>
    const addr: string
    const token: string
    const host: string
    const tlsCfg: TlsConfig
    /** The exported `Level` field: the least severe level the hook is fired for. */
    var level: Level

    /** NewGraylogHook: no connection yet, the zero TLS configuration when none is given, level Debug. */
    constructor (addr: string, token: string, host: string, tlsCfg: Option<TlsConfig>)
      ensures conn == None && level == DebugLevel
      ensures this.addr == addr && this.token == token && this.host == host
      ensures this.tlsCfg == tlsCfg.GetOr(TlsConfig([]))
    {
      this.addr := addr;
      this.token := token;
      this.host := host;
      this.tlsCfg := tlsCfg.GetOr(TlsConfig([]));
      level := DebugLevel;
      conn := None;
    }

    /**
     * connect: returns nil at once while a connection is stored; otherwise dials addr up
     * to Retries times, storing each result, and stops at the first success.
     */
    method Connect(env: Environment) returns (err: Option<Error>)
      modifies this`conn, env
      ensures var c := ConnectSpec(old(conn), env.dialOracle, |old(env.dials)|);
              conn == c.conn && err == c.err && |env.dials| == c.next
      ensures ExtendedBy(env.dials, old(env.dials), DialAttempt(addr, tlsCfg))
      ensures env.writes == old(env.writes) && env.stdout == old(env.stdout)
    {
      if conn.Some? {
        return None;
      }
      ghost var o := env.dialOracle;
      ghost var start := |env.dials|;
      err := None;
      var i := 0;
      while i < Retries
        invariant 0 <= i <= Retries && conn == None
        invariant |env.dials| == start + i && ExtendedBy(env.dials, old(env.dials), DialAttempt(addr, tlsCfg))
        invariant env.writes == old(env.writes) && env.stdout == old(env.stdout)
        invariant DialLoop(o, err, start + i, Retries - i) == DialLoop(o, None, start, Retries)
      {
        var r := env.Dial(addr, tlsCfg);
        match r
        case Dialed(c) =>
          assert DialLoop(o, err, start + i, Retries - i) == ConnectOutcome(Some(c), None, start + i + 1);
          conn := Some(c);
          return None;
        case DialFailed(e) =>
          assert DialLoop(o, err, start + i, Retries - i) == DialLoop(o, Some(e), start + i + 1, Retries - i - 1);
          conn := None;
          err := Some(e);
        i := i + 1;
      }
      return err;
    }

    /**
     * The send loop of Fire: up to Retries iterations, each calling `connect` and, when
     * that returns nil, writing the frame to the stored connection; it returns at the first
     * write that succeeds, and otherwise with the error of the last iteration.
     */
    method Send(frame: seq<bv8>, env: Environment) returns (err: Option<Error>)
      modifies this`conn, env
      ensures var r := SendLoop(old(conn), None, env.dialOracle, env.writeOracle, |old(env.dials)|, |old(env.writes)|, Retries);
              conn == r.conn && err == r.err && |env.dials| == r.nextDial && |env.writes| == r.nextWrite
      ensures ExtendedBy(env.dials, old(env.dials), DialAttempt(addr, tlsCfg))
      ensures |env.writes| == |old(env.writes)| ==> env.writes == old(env.writes)
      ensures |env.writes| > |old(env.writes)| ==>
                conn.Some? && ExtendedBy(env.writes, old(env.writes), WriteAttempt(conn.value, frame))
      ensures env.stdout == old(env.stdout)
    {
      ghost var dO, wO := env.dialOracle, env.writeOracle;
      ghost var conn0, dials0, writes0, stdout0 := conn, env.dials, env.writes, env.stdout;
      ghost var w0 := |env.writes|;
      err := None;
      var i := 0;
      while i < Retries
        invariant 0 <= i <= Retries && w0 <= |env.writes|
        invariant SendLoop(conn, err, dO, wO, |env.dials|, |env.writes|, Retries - i)
                  == SendLoop(conn0, None, dO, wO, |dials0|, w0, Retries)
        invariant ExtendedBy(env.dials, dials0, DialAttempt(addr, tlsCfg))
        invariant |env.writes| == w0 ==> env.writes == writes0
        invariant |env.writes| > w0 ==>
                    conn.Some? && ExtendedBy(env.writes, writes0, WriteAttempt(conn.value, frame))
        invariant env.stdout == stdout0
      {
        ghost var mid := env.dials;
        err := Connect(env);
        ExtendedByTrans(env.dials, mid, dials0, DialAttempt(addr, tlsCfg));
        if err.None? {
          ExtendedByAppend(env.writes, writes0, WriteAttempt(conn.value, frame));
          err := env.Write(conn.value, frame);
          if err.None? {
            return None;
          }
        }
        i := i + 1;
      }
    }

    /**
     * Fire: builds the payload of entry, serialises it with `marshal` (json.Marshal), frames
     * it with a trailing zero byte and runs the send loop; prints a diagnostic when it gives up.
     */
    method Fire(entry: Entry, marshal: Fields -> Result<seq<bv8>>, env: Environment) returns (err: Option<Error>)
      modifies this`conn, env
      ensures var bytes := marshal(Payload.Payload(entry, token, host));
              bytes.Err? ==>
                err == Some(bytes.error) && conn == old(conn)
                && env.dials == old(env.dials) && env.writes == old(env.writes) && env.stdout == old(env.stdout)
      ensures var bytes := marshal(Payload.Payload(entry, token, host));
              var r := SendLoop(old(conn), None, env.dialOracle, env.writeOracle, |old(env.dials)|, |old(env.writes)|, Retries);
              bytes.Ok? ==>
                conn == r.conn && err == r.err && |env.dials| == r.nextDial && |env.writes| == r.nextWrite
                && ExtendedBy(env.dials, old(env.dials), DialAttempt(addr, tlsCfg))
                && (|env.writes| == |old(env.writes)| ==> env.writes == old(env.writes))
                && (|env.writes| > |old(env.writes)| ==>
                      conn.Some? && ExtendedBy(env.writes, old(env.writes), WriteAttempt(conn.value, Payload.Frame(bytes.value))))
                && env.stdout == old(env.stdout) + (if err.Some? then [Diagnostic(err.value)] else [])
    {
      var title := Brackets.Title(entry.message);
      var msg := Brackets.Clean(entry.message);
      var logData := Payload.Enrich(entry.data, token, host);
      logData := logData[Payload.LevelKey := LevelValue(entry.level)];
      logData := logData[Payload.MsgKey := Str(msg)];
      logData := logData[Payload.TimestampKey := Int(entry.unixTime)];
      if |title| > 0 {
        logData := logData[Payload.TitleKey := Str(title)];
      }
      assert logData == Payload.Payload(entry, token, host);

      var bytes := marshal(logData);
      if bytes.Err? {
        return Some(bytes.error);
      }
      err := Send(Payload.Frame(bytes.value), env);
      if err.Some? {
        env.Print(Diagnostic(err.value));
      }
      return err;
    }

    /** Levels: the entries of AllLevels at least as severe as `level`, in AllLevels order. */
    method Levels() returns (levels: seq<Level>)
      ensures levels == LevelFilter.AtOrAbove(AllLevels, level)
    {
      levels := [];
      for k := 0 to |AllLevels|
        invariant levels == LevelFilter.AtOrAbove(AllLevels[..k], level)
      {
        assert AllLevels[..k + 1][..k] == AllLevels[..k];
        if AllLevels[k] <= level {
          levels := levels + [AllLevels[k]];
        }
      }
      assert AllLevels[..|AllLevels|] == AllLevels;
    }
  }
}
