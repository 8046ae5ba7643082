/**
 * What the hook sees of the network, and the connect-and-send behaviour of the hook
 * stated as functions of it.
 *
 * The TLS dialer and the writer are oracles: the n-th dial of a run returns
 * `dialOracle.At(n)` and the n-th write returns `writeOracle.At(n)`, whatever the address
 * or the bytes. An oracle is a finite script of answers followed by one answer repeated
 * for ever; a Fire makes at most Retries * Retries dials and Retries writes, so every
 * behaviour of the network during one call is such a script. Timeouts and the 200 ms
 * pause between dials are not modelled; attempts are counted instead.
 */
module Transport {
  import opened Wrappers

  /** `retries`: the bound of both the dial loop and the send loop. */
  const Retries: nat := 5

  /** The TLS settings handed to the dialer; `TlsConfig([])` is the zero `tls.Config{}`. */
  datatype TlsConfig = TlsConfig(settings: seq<string>)

  /** An open connection; the number tells connections apart. */
  datatype Conn = Conn(id: nat)

  /** What one `tls.DialWithDialer` call returns. */
  datatype DialResult = Dialed(conn: Conn) | DialFailed(err: Error)

  /** One dial, as the network saw it. */
  datatype DialAttempt = DialAttempt(addr: string, cfg: TlsConfig)

  /** One write of a frame to a connection, as the network saw it. */
  datatype WriteAttempt = WriteAttempt(conn: Conn, bytes: seq<bv8>)

  /** What the diagnostic line starts with. */
  const DiagnosticPrefix: string := "[graylog] Error while sending message: "

  /**
   * The line Fire prints on standard output when it gives up: the prefix, the error's
   * message and a newline, so the message can be read back from between the two.
   */
  function Diagnostic(err: Error): (r: string)
    ensures |r| == |DiagnosticPrefix| + |err.message| + 1
    ensures r[..|DiagnosticPrefix|] == DiagnosticPrefix && r[|r| - 1] == '\n'
    ensures r[|DiagnosticPrefix|..|r| - 1] == err.message
  {
    DiagnosticPrefix + err.message + "\n"
  }

  /**
   * What the network answers: the n-th answer of `answers`, then `otherwise` from the end
   * of `answers` on.
   */
  datatype Oracle<T> = Oracle(answers: seq<T>, otherwise: T) {
    function At(n: int): T
    {
      if 0 <= n < |answers| then answers[n] else otherwise
    }
  }

  /** log is before followed by any number of copies of x. */
  ghost predicate ExtendedBy<T>(log: seq<T>, before: seq<T>, x: T)
    decreases |log|
  {
    if |log| <= |before| then log == before
    else log[|log| - 1] == x && ExtendedBy(log[..|log| - 1], before, x)
  }

  /** Appending x keeps a log an extension of before by copies of x. */
  lemma ExtendedByAppend<T>(log: seq<T>, before: seq<T>, x: T)
    requires log == before || ExtendedBy(log, before, x)
    ensures ExtendedBy(log + [x], before, x)
  {
    assert (log + [x])[..|log|] == log;
  }

  /** Extending by copies of x is transitive. */
  lemma {:induction false} ExtendedByTrans<T>(log: seq<T>, mid: seq<T>, before: seq<T>, x: T)
    requires ExtendedBy(log, mid, x) && ExtendedBy(mid, before, x)
    decreases |log|
    ensures ExtendedBy(log, before, x)
  {
    if |log| > |mid| {
      ExtendedByTrans(log[..|log| - 1], mid, before, x);
    }
  }

  /**
   * The network and standard output: the two oracles, the log of every dial and write
   * made so far (the n-th dial is answered by dialOracle.At(n)) and the printed lines.
   */
  class Environment {
    const dialOracle: Oracle<DialResult>
    const writeOracle: Oracle<Option<Error>>
    var dials: seq<DialAttempt>
    var writes: seq<WriteAttempt>
    var stdout: seq<string>

    constructor (dialOracle: Oracle<DialResult>, writeOracle: Oracle<Option<Error>>)
      ensures this.dialOracle == dialOracle && this.writeOracle == writeOracle
      ensures dials == [] && writes == [] && stdout == []
    {
      this.dialOracle := dialOracle;
      this.writeOracle := writeOracle;
      dials, writes, stdout := [], [], [];
    }

    /** `tls.DialWithDialer` to addr with cfg. */
    method Dial(addr: string, cfg: TlsConfig) returns (r: DialResult)
      modifies this
      ensures r == dialOracle.At(|old(dials)|)
      ensures dials == old(dials) + [DialAttempt(addr, cfg)]
      ensures writes == old(writes) && stdout == old(stdout)
    {
      r := dialOracle.At(|dials|);
      dials := dials + [DialAttempt(addr, cfg)];
    }

    /** `io.Copy` of bytes to conn: None when every byte was written. */
    method Write(conn: Conn, bytes: seq<bv8>) returns (err: Option<Error>)
      modifies this
      ensures err == writeOracle.At(|old(writes)|)
      ensures writes == old(writes) + [WriteAttempt(conn, bytes)]
      ensures dials == old(dials) && stdout == old(stdout)
    {
      err := writeOracle.At(|writes|);
      writes := writes + [WriteAttempt(conn, bytes)];
    }

    /** `fmt.Printf` to standard output. */
    method Print(line: string)
      modifies this
      ensures stdout == old(stdout) + [line]
      ensures dials == old(dials) && writes == old(writes)
    {
      stdout := stdout + [line];
    }
  }

  /**
   * The stored connection and the returned error of one `connect`, and the index of the
   * first dial after it: the dials it made are those numbered from its start up to `next`.
   */
  datatype ConnectOutcome = ConnectOutcome(conn: Option<Conn>, err: Option<Error>, next: nat)

  /**
   * The dial loop of `connect` with `left` attempts to go, `err` being the error of the
   * previous attempt and the next dial being answered by dial.At(n): it stops at the first
   * success and, when no attempt is left, returns the last error with nothing stored.
   */
  function DialLoop(dial: Oracle<DialResult>, err: Option<Error>, n: nat, left: nat): (r: ConnectOutcome)
    decreases left
    ensures n <= r.next <= n + left
    ensures r.conn.None? ==> r.next == n + left
    ensures 0 < left ==> (r.err.None? <==> r.conn.Some?)
  {
    if left == 0 then ConnectOutcome(None, err, n)
    else
      match dial.At(n)
      case Dialed(c) => ConnectOutcome(Some(c), None, n + 1)
      case DialFailed(e) => DialLoop(dial, Some(e), n + 1, left - 1)
  }

  /**
   * The outcome of the dial loop is that of its last dial: the connection it returned,
   * or, when every attempt failed, its error; every dial before the last one failed.
   */
  lemma {:induction false} DialLoopLastDial(dial: Oracle<DialResult>, err: Option<Error>, n: nat, left: nat)
    requires 0 < left
    decreases left
    ensures var r := DialLoop(dial, err, n, left);
            n < r.next
            && (r.conn.Some? ==> dial.At(r.next - 1) == Dialed(r.conn.value))
            && (r.err.Some? ==> dial.At(r.next - 1) == DialFailed(r.err.value))
            && (forall k :: n <= k < r.next - 1 ==> dial.At(k).DialFailed?)
  {
    if dial.At(n).DialFailed? && left > 1 {
      DialLoopLastDial(dial, Some(dial.At(n).err), n + 1, left - 1);
    }
  }

  /** `connect`: nothing to do while a connection is stored, up to Retries dials otherwise. */
  function ConnectSpec(conn: Option<Conn>, dial: Oracle<DialResult>, n: nat): (r: ConnectOutcome)
    ensures r.err.None? <==> r.conn.Some?
  {
    if conn.Some? then ConnectOutcome(conn, None, n) else DialLoop(dial, None, n, Retries)
  }

  /**
   * `connect` reuses a stored connection without dialing; otherwise it dials between one
   * and Retries times, stores the first connection the dialer returns, and gives up with
   * the error of the last of Retries refused dials.
   */
  lemma ConnectAttempts(conn: Option<Conn>, dial: Oracle<DialResult>, n: nat)
    ensures var r := ConnectSpec(conn, dial, n);
            (conn.Some? ==> r.conn == conn && r.err.None? && r.next == n)
            && (conn.None? ==>
                  n < r.next <= n + Retries
                  && (r.conn.Some? ==> dial.At(r.next - 1) == Dialed(r.conn.value))
                  && (r.err.Some? ==> r.next == n + Retries && dial.At(r.next - 1) == DialFailed(r.err.value))
                  && (forall k :: n <= k < r.next - 1 ==> dial.At(k).DialFailed?))
  {
    if conn.None? {
      DialLoopLastDial(dial, None, n, Retries);
    }
  }

  /** The writes write.At(lo), ..., write.At(hi - 1) all failed. */
  ghost predicate WritesFailed(write: Oracle<Option<Error>>, lo: int, hi: int)
    decreases hi - lo
  {
    lo >= hi || (write.At(lo).Some? && WritesFailed(write, lo + 1, hi))
  }

  /**
   * The stored connection and the returned error of one send loop, and the indices of the
   * first dial and the first write after it.
   */
  datatype SendOutcome = SendOutcome(conn: Option<Conn>, err: Option<Error>, nextDial: nat, nextWrite: nat)

  /**
   * The send loop of Fire with `left` iterations to go, `err` being the error of the
   * previous iteration, the next dial answered by dial.At(nd) and the next write by
   * write.At(nw). Each iteration calls `connect`; when that fails the loop goes on, otherwise
   * it writes the frame to the stored connection and returns at the first success. A
   * failed write leaves the connection stored.
   */
  function SendLoop(conn: Option<Conn>, err: Option<Error>, dial: Oracle<DialResult>, write: Oracle<Option<Error>>,
                    nd: nat, nw: nat, left: nat): (r: SendOutcome)
    decreases left
    ensures nd <= r.nextDial && nw <= r.nextWrite <= nw + left
  {
    if left == 0 then SendOutcome(conn, err, nd, nw)
    else
      var c := ConnectSpec(conn, dial, nd);
      if c.err.Some? then SendLoop(c.conn, c.err, dial, write, c.next, nw, left - 1)
      else if write.At(nw).None? then SendOutcome(c.conn, None, c.next, nw + 1)
      else SendLoop(c.conn, write.At(nw), dial, write, c.next, nw + 1, left - 1)
  }

  /**
   * The cached handle is reused: while a connection is stored the send loop never dials,
   * and the connection is still stored after it.
   */
  lemma {:induction false} SendLoopReusesConnection(conn: Option<Conn>, err: Option<Error>, dial: Oracle<DialResult>,
                                                    write: Oracle<Option<Error>>, nd: nat, nw: nat, left: nat)
    requires conn.Some?
    decreases left
    ensures var r := SendLoop(conn, err, dial, write, nd, nw, left);
            r.conn == conn && r.nextDial == nd
  {
    if left > 0 && write.At(nw).Some? {
      SendLoopReusesConnection(conn, write.At(nw), dial, write, nd, nw + 1, left - 1);
    }
  }

  /**
   * A send loop of at least one iteration writes exactly when it ends with a connection
   * stored, and dials at most Retries times per iteration.
   */
  lemma {:induction false} SendLoopWritesIffConnected(conn: Option<Conn>, err: Option<Error>, dial: Oracle<DialResult>,
                                                      write: Oracle<Option<Error>>, nd: nat, nw: nat, left: nat)
    requires 0 < left
    decreases left
    ensures var r := SendLoop(conn, err, dial, write, nd, nw, left);
            (r.conn.Some? <==> nw < r.nextWrite) && r.nextDial <= nd + left * Retries
  {
    var c := ConnectSpec(conn, dial, nd);
    if c.err.Some? {
      if left > 1 {
        SendLoopWritesIffConnected(c.conn, c.err, dial, write, c.next, nw, left - 1);
      }
    } else if write.At(nw).Some? {
      SendLoopReusesConnection(c.conn, write.At(nw), dial, write, c.next, nw + 1, left - 1);
    }
  }

  /**
   * A send loop that wrote returns the outcome of its last write, and every write before
   * that one failed: it returns at the first write that succeeds.
   */
  lemma {:induction false} SendLoopLastWrite(conn: Option<Conn>, err: Option<Error>, dial: Oracle<DialResult>,
                                             write: Oracle<Option<Error>>, nd: nat, nw: nat, left: nat)
    decreases left
    ensures var r := SendLoop(conn, err, dial, write, nd, nw, left);
            nw < r.nextWrite ==> r.err == write.At(r.nextWrite - 1) && WritesFailed(write, nw, r.nextWrite - 1)
  {
    if left > 0 {
      var c := ConnectSpec(conn, dial, nd);
      if c.err.Some? {
        SendLoopLastWrite(c.conn, c.err, dial, write, c.next, nw, left - 1);
      } else if write.At(nw).Some? {
        SendLoopLastWrite(c.conn, write.At(nw), dial, write, c.next, nw + 1, left - 1);
      }
    }
  }

  /** A send loop of at least one iteration that never wrote fails with the error of its last dial. */
  lemma {:induction false} SendLoopLastDial(conn: Option<Conn>, err: Option<Error>, dial: Oracle<DialResult>,
                                            write: Oracle<Option<Error>>, nd: nat, nw: nat, left: nat)
    requires 0 < left
    decreases left
    ensures var r := SendLoop(conn, err, dial, write, nd, nw, left);
            r.nextWrite == nw ==> r.err.Some? && nd < r.nextDial && dial.At(r.nextDial - 1) == DialFailed(r.err.value)
  {
    var c := ConnectSpec(conn, dial, nd);
    if c.err.Some? {
      DialLoopLastDial(dial, None, nd, Retries);
      if left > 1 {
        SendLoopLastDial(c.conn, c.err, dial, write, c.next, nw, left - 1);
      }
    }
  }

  /**
   * Against an endpoint that refuses every dial, a send loop with no connection stored
   * makes Retries dials in each of its iterations, never writes, and fails with the last
   * refusal.
   */
  lemma {:induction false} RefusingEndpoint(err: Option<Error>, dial: Oracle<DialResult>, write: Oracle<Option<Error>>,
                                            nd: nat, nw: nat, left: nat)
    requires 0 < left
    requires forall n :: dial.At(n).DialFailed?
    decreases left
    ensures var r := SendLoop(None, err, dial, write, nd, nw, left);
            r.conn.None? && r.nextWrite == nw && r.nextDial == nd + left * Retries
            && r.err == Some(dial.At(r.nextDial - 1).err)
  {
    var c := ConnectSpec(None, dial, nd);
    DialLoopLastDial(dial, None, nd, Retries);
    assert c.conn.None? by {
      assert c.conn.Some? ==> dial.At(c.next - 1).Dialed?;
    }
    if left > 1 {
      RefusingEndpoint(c.err, dial, write, c.next, nw, left - 1);
    }
  }

  /**
   * A failed write is retried: with a connection stored and every write failing, each
   * iteration of the send loop writes once more, to the same connection and without
   * dialing, and the loop returns the error of its last write.
   */
  lemma {:induction false} FailingWrites(conn: Option<Conn>, err: Option<Error>, dial: Oracle<DialResult>,
                                         write: Oracle<Option<Error>>, nd: nat, nw: nat, left: nat)
    requires conn.Some?
    requires forall n :: write.At(n).Some?
    decreases left
    ensures var r := SendLoop(conn, err, dial, write, nd, nw, left);
            r.conn == conn && r.nextDial == nd && r.nextWrite == nw + left
            && (0 < left ==> r.err == write.At(nw + left - 1))
  {
    if left > 0 {
      FailingWrites(conn, write.At(nw), dial, write, nd, nw + 1, left - 1);
    }
  }
}
