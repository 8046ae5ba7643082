# grayloghook in Dafny

This project models `GraylogHook`, a logrus hook. The hook forwards each log entry to a
Graylog (GELF) endpoint over TLS. For each entry, `Fire` does the following:

- takes a bracketed title out of the message and removes every bracket group from the text;
- adds the token, host and GELF version to the entry's fields, then the level, message and
  timestamp;
- serialises the map and appends one zero byte;
- sends it over a cached connection. `connect` dials up to 5 times, and a send loop calls
  `connect` and writes up to 5 times.

`Levels` tells logrus which levels the hook wants.

Modules, one per file:

- `Wrappers` (`wrappers.dfy`): `Option`, `Result` and `Error`.
- `Logrus` (`logrus.dfy`): the logrus types the hook reads. These are `Level` (a 32-bit
  unsigned number), `AllLevels`, field values, `Fields` and `Entry`.
- `Brackets` (`brackets.dfy`): the two regular expressions `\[(.*?)\]` and `\[.*?\]`, as
  explicit scans. `Submatch` is the group that `FindStringSubmatch` returns. `Title` is that
  group, or "" when nothing matches, as Fire takes it. `Clean` is what
  `ReplaceAllString(_, "")` returns.
- `Payload` (`payload.dfy`): `enrich`, the field map that `Fire` serialises, and the frame.
- `LevelFilter` (`levels.dfy`): the filter behind `Levels`.
- `Transport` (`transport.dfy`): the network and standard output, which is an `Environment`
  class. It also holds the dial loop of `connect` and the send loop of `Fire`, both stated
  as functions of the network's answers, with the lemmas about them.
- `Grayloghook` (`hook.dfy`): the `GraylogHook` class. Its `conn` field is updated in place.
  Its methods `Connect`, `Send`, `Fire` and `Levels` are each proved against the
  functions above.

The network is an oracle. The n-th dial gets the answer `dialOracle.At(n)` and the n-th write
gets `writeOracle.At(n)`. The environment logs every dial, every write and every printed line.
So each method's postcondition states its effect on the hook and on the network:

- which connection is stored afterwards;
- which error is returned;
- how many dials and writes were made, and to where;
- what was printed.

## Model

| member | source | states |
|---|---|---|
| Grayloghook.GraylogHook.constructor | grayloghook/hook.go:45-56 | A new hook has no connection and level Debug. It keeps the address, token and host. A missing TLS configuration becomes the zero configuration. |
| Grayloghook.GraylogHook.Connect | grayloghook/hook.go:28-42 | The stored connection, the returned error and the number of dials are those of `ConnectSpec` on the old state. Every dial goes to the hook's address with its TLS configuration. No write is made and nothing is printed. |
| Transport.ConnectSpec | grayloghook/hook.go:28-42 | `connect` returns nil exactly when a connection is stored afterwards. |
| Transport.ConnectAttempts | grayloghook/hook.go:28-42 | A stored connection is reused without dialing. Otherwise there are 1 to 5 dials, and every dial before the last one failed. The first connection the dialer returns is stored. After 5 refusals, the error of the last refusal is returned. |
| Transport.DialLoop | grayloghook/hook.go:34-41 | The dial loop makes at most `left` dials, and exactly `left` when it stores nothing. Once it has made at least one dial, it returns nil exactly when it stored a connection. |
| Transport.DialLoopLastDial | grayloghook/hook.go:34-41 | The outcome of the dial loop is the answer to its last dial: the connection stored, or the error returned. Every earlier dial failed. |
| Grayloghook.GraylogHook.Send | grayloghook/hook.go:102-118 | The stored connection, the returned error and the numbers of dials and writes are those of `SendLoop` from the old state. Every dial goes to the hook's address. Every write puts the same frame on the connection that is stored at the end. Nothing is printed. |
| Transport.SendLoop | grayloghook/hook.go:102-118 | The send loop makes at most one write per iteration, and it only moves forward in the dial and write sequences. |
| Transport.SendLoopReusesConnection | grayloghook/hook.go:29-31 | While a connection is stored, the send loop never dials and keeps that connection stored, even after failed writes. |
| Transport.SendLoopWritesIffConnected | grayloghook/hook.go:102-112 | The send loop writes exactly when it ends with a connection stored. It dials at most 5 times per iteration, so at most 25 times per `Fire`. |
| Transport.SendLoopLastWrite | grayloghook/hook.go:107-118 | A send loop that wrote returns the result of its last write, and every earlier write failed. It returns nil at the first write that succeeds. |
| Transport.SendLoopLastDial | grayloghook/hook.go:103-105 | A send loop that never wrote returns a non-nil error: the refusal from its last dial. |
| Transport.RefusingEndpoint | grayloghook/hook.go:34-41 | When the endpoint refuses every dial, a loop of n iterations that starts with no connection stored makes exactly 5·n dials and no write. It returns the last refusal. With a connection stored, it makes no dial at all (`SendLoopReusesConnection`). |
| Transport.FailingWrites | grayloghook/hook.go:102-111 | A failed write is retried. With a connection stored and every write failing, a loop of n iterations makes exactly n writes and no dial, keeps the connection stored, and returns the error of its last write. |
| Grayloghook.GraylogHook.Fire | grayloghook/hook.go:70-119 | Fire serialises `Payload.Payload` of the entry. If serialisation fails, that error is returned and nothing else changes. Otherwise the send loop runs on the frame of the bytes. A diagnostic line is printed exactly when the returned error is non-nil. |
| Transport.Diagnostic | grayloghook/hook.go:115 | The diagnostic line is the fixed prefix, the error's message and a newline. The message can be read back from between the two. |
| Transport.Environment.Dial | grayloghook/hook.go:35 | The n-th dial returns the oracle's n-th answer and appends one attempt, to the given address with the given configuration, to the dial log. Writes and output are unchanged. |
| Transport.Environment.Write | grayloghook/hook.go:107 | The n-th write returns the oracle's n-th answer and appends the frame, with its connection, to the write log. Dials and output are unchanged. |
| Transport.Environment.Print | grayloghook/hook.go:115 | Printing appends exactly one line to the output. The dial and write logs are unchanged. |
| Payload.Enriched | grayloghook/hook.go:58-67 | The keys are the caller's keys plus token, host and version. Those three keys hold the hook's token, its host and "1.1". Every other key keeps the caller's value. |
| Payload.Enrich | grayloghook/hook.go:58-67 | The key-by-key copy followed by the three assignments yields `Enriched`. |
| Payload.Payload | grayloghook/hook.go:86-93 | The keys are the entry's keys, the three injected keys, level, msg and timestamp, plus title exactly when the title is not empty. Each of these keys holds the value written for it. msg holds the cleaned message. Every other caller key passes through. |
| Payload.Frame | grayloghook/hook.go:100 | The frame is the bytes followed by one zero byte. When the bytes contain no zero, that trailing byte is the frame's only zero. |
| Brackets.CloseFrom | grayloghook/hook.go:76-84 | Where a group whose content starts at k closes, if it closes, is an index in the text from k on. `CloseFromIsNearest` shows that this index is the nearest `]` with no newline before it. |
| Brackets.MatchFrom | grayloghook/hook.go:76-84 | The match found from p on opens at p or later and closes after it opens, inside the text. `MatchFromIsLeftmost` shows that it is the leftmost match. |
| Brackets.Title | grayloghook/hook.go:76-80 | A title never holds a `]` or a newline. A non-empty title is shorter than the message by at least its two brackets. `TitleIsLeftmostGroup` shows that it is the inside of the leftmost match, or "" when nothing matches. |
| Brackets.CleanFrom | grayloghook/hook.go:83-84 | Cleaning from p on is never longer than the text from p on. `CleanFromDeletesLeftmostMatch` shows that it deletes each leftmost match and keeps the rest. |
| Brackets.Clean | grayloghook/hook.go:83-84 | The cleaned message is never longer than the message. `CleanIdempotent` shows that no group is left in it. |
| Brackets.CloseFromIsNearest | grayloghook/hook.go:76-84 | A bracket group closes at the nearest `]` that has no newline before it. No group closes when every `]` has a newline before it. |
| Brackets.MatchFromIsLeftmost | grayloghook/hook.go:76-84 | A match is found exactly when one exists, and the one found is the leftmost. |
| Brackets.TitleIsLeftmostGroup | grayloghook/hook.go:76-84 | The title is the inside of the leftmost match, or "" when nothing matches. Cleaning keeps the text before that match, drops the match, and goes on after it. |
| Brackets.CleanFromDeletesLeftmostMatch | grayloghook/hook.go:83-84 | Cleaning deletes each leftmost match and keeps all other text unchanged, with no trimming. Text with no match is kept as it is. |
| Brackets.MatchEndUnique | grayloghook/hook.go:83 | The lazy `.*?` gives a match that starts at a given `[` only one possible end. |
| Brackets.CleanIdempotent | grayloghook/hook.go:83-84 | A cleaned message has no group left. Cleaning it again changes nothing, and its title is "". |
| Brackets.NoBracketKeepsText | grayloghook/hook.go:76-84 | A message without `[` has the title "" and is kept verbatim. |
| Brackets.TitleExample | grayloghook/hook.go:76-84 | "[ERR] disk full" gives the title "ERR" and the message " disk full". The leading space is kept. |
| Brackets.NewlineExample | grayloghook/hook.go:76-84 | "[a\nb] c" yields no title and is kept whole, because `.` does not match a newline. |
| Grayloghook.GraylogHook.Levels | grayloghook/hook.go:122-130 | The result is `AtOrAbove(AllLevels, level)`. |
| LevelFilter.AtOrAbove | grayloghook/hook.go:122-130 | The filter is no longer than its input. A level is in the result exactly when it is in the input and at least as severe as the threshold. |
| LevelFilter.AtOrAboveKeepsOrder | grayloghook/hook.go:124-127 | A strictly increasing input, such as AllLevels, filters to a strictly increasing result. |
| LevelFilter.AtOrAboveAllLevels | grayloghook/hook.go:122-130 | With threshold t, the result is the prefix Panic..t of AllLevels. A threshold at Trace or above keeps all levels. |
| LevelFilter.DefaultAndWarnLevels | grayloghook/hook.go:54 | The default level Debug gives every level except Trace. Warn gives Panic, Fatal, Error and Warn. |

## Left out

- TLS, TCP and the 5-second dial timeout are left out. The dialer and the writer are oracles.
  An oracle is a finite script of answers followed by one answer repeated for ever. That
  covers everything one `Fire` can see, since a `Fire` makes at most 25 dials and 5 writes.
- The 200 ms pause between dials is not modelled. Attempts are counted instead.
- A failed dial stores no connection in the model. In Go, assigning the nil `*tls.Conn`
  into the `io.WriteCloser` field makes `conn != nil` true afterwards. Interface nil-ness
  is not modelled. Under the Go semantics, the next `connect` returns nil without dialing.
  `io.Copy` then reaches `(*tls.Conn).Write` on that nil receiver, which by the standard
  library's definition dereferences nil. So against a refusing endpoint, the Go `Fire`
  makes 5 dials and then crashes in its second iteration. The 25 dials and the returned
  error of `Transport.RefusingEndpoint` hold for the model's representation, not for Go.
- The model follows the code rather than the reconnect-on-failure policy. A failed write
  leaves the broken connection stored, so the later iterations of the send loop and later
  `Fire` calls write to it again and never reconnect (`SendLoopReusesConnection`).
- `json.Marshal` is the parameter `marshal` of `Fire`. Its encoding is not modelled; only
  its error path is.
- `fmt.Printf` is modelled as a line appended to `stdout`.
- `Brackets`: the regular expressions are modelled on a `seq<char>` with no UTF-8 decoding.
  RE2 treats invalid UTF-8 bytes specially, and that is not captured.
- `regexp.MustCompile` cannot fail on these constant patterns, so it is not modelled.
- `entry.Time.Unix()` is taken as the integer field `unixTime` of the entry.
- Concurrent calls to `Fire` on one hook are not modelled. The source does no locking.
- The `Level` field is exported and can be set by callers. The model keeps it as a mutable
  field but has no setter method.
- Dials and writes are kept in two separate logs, so the order between a dial and a write
  is not recorded. Each log's contents are stated in full: the old log followed by copies of
  one attempt.
