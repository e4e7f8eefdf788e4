# kulgad-web: pin mirror and client-address middleware, in Dafny

This project models two parts of the kulgad-web dashboard for a 256-channel
digital pin array.

**The page** (`app/page.tsx`, module `Page`). The page keeps a local mirror of
the 256 remote pin states. It starts as 256 `false` entries. An inbound message
whose parsed `pins` property is an array of exactly 256 entries replaces the
whole mirror with that array. Every other message leaves the mirror as it was:
text that does not parse, a `null` payload (reading `.pins` throws, and the
handler catches it), a payload that is not an object, a missing `pins`, a
`pins` that is not an array, or an array of any other length. A click on cell
`i` does nothing unless a socket exists and its `readyState` is `OPEN`. Then it
sends exactly one text, `{"cmd":"set","ch":i,"val":b}`, where `b` is the
negation of the mirrored value. The mirror is never changed by a click.

- `Home` is the component: a class with the fields `pins`, `ws` and `sent`.
  `sent` records every text handed to `ws.send`.
- Its methods `OnMessage`, `HandleClick` and `SetSocket` are each proved
  against the pure transition `Step`.
- `Run`, `Replay` and `LastSnapshot` describe whole event sequences. Their
  lemmas show three things:
  - only messages change the mirror;
  - the mirror always has 256 entries;
  - the mirror is the array of the last accepted snapshot.
- The values in the mirror are whatever JSON values the server sent (`Json`).
  `!current` applies JavaScript's ToBoolean (`Truthy`), so a server that sends
  `0`/`1` gets `true`/`false` back.
- `SetCommand` writes the `set` command the way `JSON.stringify` does: keys in
  the order cmd, ch, val. `Decode` reads it back, and round trips are proved in
  both directions.

**The middleware** (`middleware.ts`, module `Middleware`). The client address is
`forwarded.split(',')[0].trim()` when the `x-forwarded-for` header is present
and non-empty, and `''` otherwise.

- `Split` and `Trim` model the two ECMAScript string operations. `Split` is
  proved inverse to `Join`. `Trim` is characterised as the infix with no
  ECMAScript white space or line terminator at either end and only such code
  points outside it.
- The address never contains a comma and has no white space at either end.
- The localhost rule is commented out in the source, so `Decide` passes every
  request on.

The page does not do, and the model does not add:

- partial `results` updates with `ON`/`OFF`;
- a `scan` flag, and `scan`/`fullscan` commands;
- a connection-status enum;
- reconnection;
- an activity log;
- a local toggle of the mirror on a click.

## Model

| member | source | states |
|---|---|---|
| `Page.InitialPins` | app/page.tsx:40 | the starting mirror has exactly 256 entries, each `false` |
| `Page.Home.constructor` | app/page.tsx:40-41 | the component starts with 256 `false` pins, no socket, nothing sent |
| `Json.Lookup` | app/page.tsx:62 | a member of a parsed object is found iff its key occurs, and the value is that of the last occurrence of the key |
| `Json.PropertyGet` | app/page.tsx:67 | `data.pins` throws exactly when `data` is `null`; on an object it is the object's member (last occurrence of the key, `undefined` when absent); on an array, string, number or boolean it is `undefined` |
| `Json.Truthy` | app/page.tsx:111 | the ToBoolean inside `!current`: a JSON value is falsy exactly when it is `null`, `false`, `0` or `""` |
| `Page.Snapshot` | app/page.tsx:62-68 | a frame installs an array iff it parsed to an object whose `pins` is an array of exactly 256 entries, and the array installed is that one |
| `Page.NextPins` | app/page.tsx:57-74 | malformed text, a non-object payload, a missing or non-array `pins`, or a wrong length leave the mirror unchanged; a 256-entry `pins` array replaces it element for element; length 256 is preserved |
| `Page.Home.OnMessage` | app/page.tsx:57-74 | the handler's new state is `Step` of the old state on that message: only `pins` changes, and only as `NextPins` says |
| `Page.ClickCommand` | app/page.tsx:94-112 | a command exists iff a socket exists and is `OPEN`; it names channel `index` and carries the negation of the mirrored value |
| `Page.ClickOutput` | app/page.tsx:94-117 | a click sends at most one text, exactly one iff the socket is open, and that text decodes to `set` on `index` with the negated value |
| `Page.Home.HandleClick` | app/page.tsx:94-118 | the click's new state is `Step` of the old state on that click: `pins` and `ws` unchanged, `sent` grows by the click's output |
| `Page.Home.SetSocket` | app/page.tsx:52 | storing the socket handle changes only `ws` |
| `Page.Step` | app/page.tsx:57-118 | one event keeps the mirror at 256 entries; only a message changes the mirror, only a click sends, only a socket change changes `ws` |
| `Page.Run` | app/page.tsx:57-118 | the mirror has 256 entries after any sequence of events |
| `Page.Replay` | app/page.tsx:57-74 | the mirror after a sequence of frames is the starting mirror or the array installed by one of those frames |
| `Page.LastSnapshot` | app/page.tsx:67-68 | the last accepted snapshot of a frame sequence has 256 entries |
| `Page.ReplaySnoc` | app/page.tsx:57-74 | replaying one more frame is one more `NextPins` step |
| `Page.ReplayIsLastSnapshot` | app/page.tsx:67-68 | after any frame sequence the mirror is exactly the last accepted snapshot, or the starting mirror if none was accepted |
| `Page.ReplayKeepsPinCount` | app/page.tsx:40-68 | after any frame sequence the mirror has exactly 256 entries |
| `Page.RunPinsAreReplay` | app/page.tsx:94-118 | clicks and socket changes never touch the mirror: after any run it equals the replay of the run's messages alone |
| `Page.RunSendsOnlySetCommands` | app/page.tsx:103-117 | sent texts are never withdrawn, and every text sent is a well-formed `set` command for a channel below 256 |
| `SetCommand.Decimal` | app/page.tsx:110 | the channel is written as a canonical decimal numeral (digits only, no leading zero) |
| `SetCommand.DecimalValueOfDecimal` | app/page.tsx:110 | reading the written channel number gives the channel back |
| `SetCommand.DecimalOfDecimalValue` | app/page.tsx:110 | a canonical numeral is exactly how its value is written |
| `SetCommand.DigitRun` | app/page.tsx:117 | the digit run read from a text is its longest all-digit prefix |
| `SetCommand.Encode` | app/page.tsx:108-117 | `JSON.stringify` of `{cmd, ch, val}` in that key order; the text decodes back to the command it was written from |
| `SetCommand.DecodeSetText` | app/page.tsx:108-117 | the text made of the `cmd`/`ch` prefix, the channel numeral and the `val` suffix decodes to that channel and value |
| `SetCommand.EncodeDecode` | app/page.tsx:108-117 | any text that decodes is exactly the encoding of what it decodes to |
| `SetCommand.EncodeInjective` | app/page.tsx:108-117 | distinct commands are sent as distinct texts |
| `Middleware.Split` | middleware.ts:7 | `split(',')` yields at least one field, and no field contains the separator |
| `Middleware.JoinSplit` | middleware.ts:7 | joining the fields of a split with the separator gives back the original header |
| `Middleware.SplitJoin` | middleware.ts:7 | splitting a join of separator-free fields gives back those fields |
| `Middleware.IndexOf` | middleware.ts:7 | the position of the first comma, or the length when there is none |
| `Middleware.FirstFieldIsPrefix` | middleware.ts:7 | `split(',')[0]` is the text before the first comma, or the whole header when there is no comma |
| `Middleware.IsTrimmable` | middleware.ts:7 | the code points `trim()` removes are ECMAScript WhiteSpace and LineTerminator; among ASCII these are exactly tab, line feed, vertical tab, form feed, carriage return and space |
| `Middleware.TrimStart` | middleware.ts:7 | removes exactly the leading white space: what it drops is all white space, and what it keeps starts with non-white-space |
| `Middleware.TrimEnd` | middleware.ts:7 | removes exactly the trailing white space |
| `Middleware.Trim` | middleware.ts:7 | `trim()` yields the infix with no white space at either end and only white space outside it |
| `Middleware.TrimKeepsAbsent` | middleware.ts:7 | trimming introduces no character the text did not contain |
| `Middleware.TrimIdempotent` | middleware.ts:7 | text without white space at either end is its own trim |
| `Middleware.ClientIp` | middleware.ts:6-7 | an absent or empty header gives `''`; the address never contains a comma and has no white space at either end |
| `Middleware.ClientIpIsTrimmedPrefix` | middleware.ts:7 | for a non-empty header the address is the trimmed text before the first comma (the whole header trimmed when there is no comma) |
| `Middleware.Decide` | middleware.ts:10-14 | every request is passed on (`NextResponse.next()`), whatever the extracted address |

## Left out

- Rendering is not modelled: the JSX grid, `CELL_SIZE` and the colours are presentation. The only fact used from it is that click indices come from `pins.map`, so they are 0..255. `HandleClick` and `Run` require this.
- Constructing the WebSocket, the server URL, the `useEffect` mount and cleanup, and `socket.close()` are transport I/O. The socket is modelled as an optional handle with a `readyState`, and `SetSocket` sets it.
- The `console.log` and `console.error` calls on close, error and bad JSON are logging only. They change no state.
- `JSON.parse` itself is a library call and is not modelled. Messages reach the model already parsed, and text that fails to parse is the `Malformed` frame.
- JSON numbers are modelled as `real`. A number literal that `JSON.parse` turns into `Infinity` is not representable. Its only use would be the truthiness of a mirrored pin, and that would be `true` either way.
- Binary (non-text) WebSocket messages are not modelled separately. `JSON.parse` rejects their string form, so they are `Malformed` frames.
- React's asynchronous state scheduling is not modelled, and neither is a possibly stale `pins` closure in `handleClick`. Events are processed one at a time, in order.
- `NextRequest` and `NextResponse` are framework objects. The header is an `Option<string>`, and the outcome is a `Decision`.
