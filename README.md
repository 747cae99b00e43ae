# AQW Mobile: relay, server selector and player glue, in Dafny

This project models the decision logic of the AQW Mobile Android app. The app is
a Ruffle-based Flash player that connects to the AdventureQuest Worlds game
servers through a local TCP relay. Three Kotlin files make up the core:

- `AqwBridge.kt` is the local relay. On the first read of each accepted
  connection it makes one of three choices:
  - at end of stream, it stops;
  - when the bytes hold a Flash socket-policy probe
    (`<policy-file-request/>`), it answers with the cross-domain policy
    document plus a NUL byte, then closes;
  - otherwise it opens one upstream connection, forwards the first chunk
    unchanged, and starts the two copy tasks.

  Its lifecycle is the pair of fields `running` / `serverSocket` and the
  accept loop.
- `MainActivity.kt` holds the fixed table of servers. It shows one button per
  entry. `launchGame` splits `host:port` at the first colon, parses the port
  and starts the player with both values as intent extras.
- `PlayerActivity.kt` holds the rest:
  - the context menu: item strings `enabled separatorBefore checked caption`
    are decoded, grouped by a running counter and given ids, an `Exit` item is
    added last, and clicks are dispatched;
  - the pre-order view collector `gatherAllDescendantsOfType`;
  - the hidden text field's forwarding rule and its delete key;
  - the relay configuration read from the intent, and the bridge started in
    `onCreate` and stopped in `onDestroy`.

The files:

- `wrappers.dfy` holds `Option` and `Result`.
- `kotlin_text.dfy` (module `KotlinText`) writes out the Kotlin/JVM library
  behaviour the code relies on:
  - `substringBefore` / `substringAfter`;
  - `split(" ".toRegex(), limit)`;
  - `toBoolean`;
  - `toInt` (`Integer.parseInt`) and `Int.toString`;
  - the insertion order of `mapOf`.
- `aqw_bridge.dfy` (module `AqwBridge`) models the relay:
  - the pure classifier `Classify`;
  - the handler as a trace of I/O effects, `HandleConnection`. An exception
    raised at any step is modelled by a `faultAt` index;
  - a phase machine that every trace walks;
  - the `Bridge` class, with its two lifecycle fields and the accept loop as a
    `while` loop.
- `main_activity.dfy` (module `MainActivity`) models the server table, the
  buttons, address parsing and the launched intent.
- `player_activity.dfy` (module `PlayerActivity`) models the player side:
  - the context menu, with `ShowContextMenu` as the loop of the source, proved
    against `ContextMenu`;
  - the recursive collector as a method with the source's loop, proved against
    a pre-order filter;
  - the text and key rules and the bridge configuration;
  - the `Player` class holding `aqwBridge`.

Behaviours of the code worth knowing, all kept by the model:

- **End of stream.** A first read that returns end of stream ends the handler
  without closing the client socket (`AqwBridge.kt:36`).
- **A read of zero bytes.** The handler tests only for `-1` (`AqwBridge.kt:36`).
  `InputStream.read` on a 1024-byte buffer blocks until it has at least one
  byte, so a zero result cannot occur. The model still admits it as an
  over-approximation, and sends it down the forwarding path as an empty first
  packet.
- **Accept errors.** Any exception in the accept loop ends it; no accept error is
  ignored (`AqwBridge.kt:15-25`).
- **A later upstream failure.** Suppose the connect succeeded and then the first
  write, or the start of a copy task, throws an `Exception`. The `catch` closes
  only the client, and the upstream socket is left open (`AqwBridge.kt:45-50`).
  The phase machine records this as `Closed(true)`.
- **`start()`.** It returns at once; the bind happens on the listener thread. A
  `stop()` that runs before the bind leaves the later-bound listener open
  (`StopBeforeBindLeavesListenerOpen`).
- **The listening address.** `ServerSocket(localPort)` (`AqwBridge.kt:16`)
  listens on all interfaces, not only on loopback. The model's `Listener`
  records the port alone.
- **Relaying never closes.** Once both copy tasks are started, nothing in the
  code closes either socket. Each copy thread (`AqwBridge.kt:47-48`) returns at
  end of stream or after a caught exception without calling `close()`. So
  `Relaying(2)` is a final phase in the code as well as in the model.

## Model

| member | source | states |
|---|---|---|
| AqwBridge.AsciiBytes | app/src/main/java/rs/ruffle/AqwBridge.kt:37-41 | text becomes one byte per character, and every ASCII character keeps its own code |
| AqwBridge.PolicyReplyTerminated | app/src/main/java/rs/ruffle/AqwBridge.kt:40-41 | the reply bytes are the policy document followed by exactly one zero byte |
| AqwBridge.Contains | app/src/main/java/rs/ruffle/AqwBridge.kt:39 | `contains` as a search from each start position, given no contract of its own; `ContainsIffOccurs` proves it means "occurs somewhere" |
| AqwBridge.PolicyReply | app/src/main/java/rs/ruffle/AqwBridge.kt:40-41 | the bytes written on the policy path, given no contract of its own; `PolicyReplyTerminated` proves they are the document and one zero byte |
| AqwBridge.Plan | app/src/main/java/rs/ruffle/AqwBridge.kt:39-48 | a decision has no effects iff it is stop, and every effect touches the upstream side iff the decision is to forward |
| AqwBridge.ContainsIffOccurs | app/src/main/java/rs/ruffle/AqwBridge.kt:39 | the substring search answers true exactly when the pattern occurs at some position |
| AqwBridge.Classify | app/src/main/java/rs/ruffle/AqwBridge.kt:34-46 | stop iff the read returned -1; policy iff `buffer[..read]` contains the probe, and then the reply is the policy bytes; otherwise forward to `(targetHost, targetPort)` with exactly `buffer[..read]` |
| AqwBridge.ClassifyReadsOnlyPrefix | app/src/main/java/rs/ruffle/AqwBridge.kt:35-39 | two buffers that agree on the first `read` bytes get the same decision |
| AqwBridge.ProbeAnywhereIsPolicy | app/src/main/java/rs/ruffle/AqwBridge.kt:39-40 | a probe with any bytes before and after it is answered with the policy reply |
| AqwBridge.HandleConnection | app/src/main/java/rs/ruffle/AqwBridge.kt:29-52 | end of stream produces no effect at all (no write, no upstream, no close); a read that throws produces only the client close |
| AqwBridge.PolicySession | app/src/main/java/rs/ruffle/AqwBridge.kt:39-50 | on the policy path nothing touches an upstream socket, every client write is the policy reply, the last effect closes the client, and without a fault the effects are exactly write, flush, close |
| AqwBridge.ForwardSession | app/src/main/java/rs/ruffle/AqwBridge.kt:44-50 | on the forwarding path nothing is written to the client; the only connect is the first effect and targets the configured server; the only upstream write is second and carries `buffer[..read]` unchanged; copy tasks start only after it; the client is closed iff a step threw; without a fault the effects are exactly connect, write, two copies |
| AqwBridge.ExceptionClosesClient | app/src/main/java/rs/ruffle/AqwBridge.kt:45-50 | any exception in the handler, including the first read or a failed connect, ends with the client socket closed |
| AqwBridge.PolicyPhases | app/src/main/java/rs/ruffle/AqwBridge.kt:39-50 | whatever step throws, a policy session walks the phase machine to closed with no upstream socket |
| AqwBridge.ForwardPlan | app/src/main/java/rs/ruffle/AqwBridge.kt:45-48 | the forwarding plan is connect, first write, client-to-upstream copy, upstream-to-client copy, in that order |
| AqwBridge.ForwardFailsEarly | app/src/main/java/rs/ruffle/AqwBridge.kt:45-50 | a failed connect closes with nothing upstream; a failed first write closes with the upstream socket left open |
| AqwBridge.ForwardFailsLate | app/src/main/java/rs/ruffle/AqwBridge.kt:47-50 | an `Exception` while starting a copy task closes the client with the upstream socket left open |
| AqwBridge.ForwardRelays | app/src/main/java/rs/ruffle/AqwBridge.kt:45-48 | a forward in which nothing throws ends relaying with both copy tasks started |
| AqwBridge.ForwardPhases | app/src/main/java/rs/ruffle/AqwBridge.kt:44-50 | the final phase of a forwarding session as a function of where it faulted: relaying, closed clean, or closed with the upstream left open |
| AqwBridge.SessionPhases | app/src/main/java/rs/ruffle/AqwBridge.kt:29-52 | every handler run is a legal walk from dispatching; it stays there iff end of stream; it relays with two copies iff forwarding met no fault; it ends closed with upstream open iff forwarding failed after the connect |
| AqwBridge.Started | app/src/main/java/rs/ruffle/AqwBridge.kt:12-13 | `start()` sets `running` and leaves the server socket as it was |
| AqwBridge.Bound | app/src/main/java/rs/ruffle/AqwBridge.kt:16 | the listener thread stores a fresh, open server socket on the local port and leaves `running` alone |
| AqwBridge.Stopped | app/src/main/java/rs/ruffle/AqwBridge.kt:54-56 | `stop()` clears `running` and closes the server socket exactly when there is one, keeping its port |
| AqwBridge.StopIdempotent | app/src/main/java/rs/ruffle/AqwBridge.kt:54-56 | a second `stop()` changes nothing |
| AqwBridge.StopBeforeStart | app/src/main/java/rs/ruffle/AqwBridge.kt:9-56 | `stop()` on a bridge never started changes nothing |
| AqwBridge.StopBeforeBindLeavesListenerOpen | app/src/main/java/rs/ruffle/AqwBridge.kt:13-56 | a `stop()` between `start()` and the bind leaves the later-bound listener open and `running` false |
| AqwBridge.AcceptedBeforeFailure | app/src/main/java/rs/ruffle/AqwBridge.kt:17-24 | the dispatched clients are the accepted ones, in order, up to the first `accept()` that throws |
| AqwBridge.Bridge.constructor | app/src/main/java/rs/ruffle/AqwBridge.kt:8-10 | the bridge keeps its three parameters; it starts not running and with no server socket |
| AqwBridge.Bridge.Start | app/src/main/java/rs/ruffle/AqwBridge.kt:12-13 | the new state is `Started` of the old one |
| AqwBridge.Bridge.AcceptLoop | app/src/main/java/rs/ruffle/AqwBridge.kt:17-24 | while `running`, the loop hands every accepted client to the handler in order and ends at the first exception; when not running it dispatches nothing |
| AqwBridge.Bridge.ListenerThread | app/src/main/java/rs/ruffle/AqwBridge.kt:14-26 | a failed bind leaves the state alone and dispatches nothing; a successful bind stores the listener, then the accept loop runs |
| AqwBridge.Bridge.Stop | app/src/main/java/rs/ruffle/AqwBridge.kt:54-57 | the new state is `Stopped` of the old one |
| KotlinText.SubstringBefore | app/src/main/java/rs/ruffle/MainActivity.kt:91 | the result is a prefix of the text, and the whole text when the delimiter is missing (Kotlin's default `missingDelimiterValue`); with `SubstringsAtFirst` it is the text before the first delimiter otherwise |
| KotlinText.SubstringAfter | app/src/main/java/rs/ruffle/MainActivity.kt:92 | the result is a suffix of the text, and the whole text when the delimiter is missing (Kotlin's default `missingDelimiterValue`); with `SubstringsAtFirst` it is the text after the first delimiter otherwise |
| KotlinText.IndexOf | app/src/main/java/rs/ruffle/MainActivity.kt:91-92 | a found index lies in the string and holds the character |
| KotlinText.IndexOfFirst | app/src/main/java/rs/ruffle/MainActivity.kt:91-92 | the search misses iff the character is absent, and what it finds is the first occurrence |
| KotlinText.IndexOfAt | app/src/main/java/rs/ruffle/MainActivity.kt:91-92 | an occurrence with none before it is the one the search returns |
| KotlinText.SubstringsAtFirst | app/src/main/java/rs/ruffle/MainActivity.kt:91-92 | before, delimiter and after reassemble the string; the part before has no delimiter |
| KotlinText.SubstringsOfJoin | app/src/main/java/rs/ruffle/MainActivity.kt:91-92 | for a prefix without the delimiter, `substringBefore`/`substringAfter` recover prefix and suffix exactly |
| KotlinText.SplitSpaces | app/src/main/java/rs/ruffle/PlayerActivity.kt:100 | `split(" ".toRegex(), limit)`, given no contract of its own; its properties are `SplitSpacesBounds`, `SplitSpacesJoin`, `SplitSpacesFields` and `SplitSpacesCount` |
| KotlinText.SplitSpacesBounds | app/src/main/java/rs/ruffle/PlayerActivity.kt:100 | `split` with a limit yields between 1 and `limit` fields |
| KotlinText.SplitSpacesJoin | app/src/main/java/rs/ruffle/PlayerActivity.kt:100 | the fields joined again with single spaces give back the string: nothing is lost, empty fields included |
| KotlinText.SplitSpacesFields | app/src/main/java/rs/ruffle/PlayerActivity.kt:100-104 | every field but the last is free of spaces, and the last is too when the limit was not reached |
| KotlinText.SplitSpacesFirst | app/src/main/java/rs/ruffle/PlayerActivity.kt:100 | a space-free first field is cut off at the space after it, with one less field left for the rest |
| KotlinText.SplitSpacesCount | app/src/main/java/rs/ruffle/PlayerActivity.kt:100 | the number of fields is one more than the number of spaces, capped at the limit |
| KotlinText.ToBoolean | app/src/main/java/rs/ruffle/PlayerActivity.kt:101-103 | `toBoolean()`, given no contract of its own; `ToBooleanIgnoresCase` characterises it |
| KotlinText.ToBooleanIgnoresCase | app/src/main/java/rs/ruffle/PlayerActivity.kt:101-103 | `toBoolean` is true exactly for the four-letter spellings of "true" in any mix of case |
| KotlinText.ParseInt | app/src/main/java/rs/ruffle/MainActivity.kt:92 | `toInt()`: a parsed value fits in 32 bits and comes from a non-empty text; an accepted text is either all digits, worth their decimal value, or a sign followed by at least one digit (a lone `-` or `+` is rejected), worth their value negated after `-`; conversely every non-empty digit text, with or without a `+` or `-`, whose value fits in an `Int` is accepted with that value (so `"+5588"` and `"05588"` give 5588) |
| KotlinText.DigitsOfNat | app/src/main/java/rs/ruffle/MainActivity.kt:92 | the digits of a number are worth that number |
| KotlinText.NatOfDigits | app/src/main/java/rs/ruffle/MainActivity.kt:92 | rendering the value of a canonical digit string gives the string back |
| KotlinText.ParseIntToString | app/src/main/java/rs/ruffle/MainActivity.kt:92 | `toInt` of the rendering of any 32-bit value is that value |
| KotlinText.ToStringParseInt | app/src/main/java/rs/ruffle/MainActivity.kt:92 | a canonical digit text that `toInt` accepts is rendered back to itself |
| KotlinText.LinkedEntries | app/src/main/java/rs/ruffle/MainActivity.kt:24 | the iteration order of a `mapOf` built from the pairs, given no contract of its own; `LinkedEntriesInOrder` characterises it for distinct keys |
| KotlinText.LinkedEntriesInOrder | app/src/main/java/rs/ruffle/MainActivity.kt:24-78 | a map built from pairs with distinct keys iterates in declaration order |
| MainActivity.ServerNamesDistinct | app/src/main/java/rs/ruffle/MainActivity.kt:24-38 | the server names of the table are pairwise distinct, so no entry is overwritten |
| MainActivity.ServerButtons | app/src/main/java/rs/ruffle/MainActivity.kt:78-84 | one button per map entry in iteration order, given no contract of its own; `ButtonsFollowTable` proves the order is the table's |
| MainActivity.ButtonsFollowTable | app/src/main/java/rs/ruffle/MainActivity.kt:24-84 | one button per table entry, in declaration order, with the entry's name and address |
| MainActivity.ParseServerInfo | app/src/main/java/rs/ruffle/MainActivity.kt:91-92 | the host is `substringBefore(":")` and has no colon; the port is the value `toInt()` gives for `substringAfter(":")` and fits an `Int`; with a colon, host, colon and port text reassemble the input; it fails iff the text after the first colon is not an integer |
| MainActivity.FormatAddress | app/src/main/java/rs/ruffle/MainActivity.kt:24-38 | the `host:port` spelling of the table, given no contract of its own; `ParseFormatted` and `FormatParsed` make it the inverse of parsing |
| MainActivity.ParseFormatted | app/src/main/java/rs/ruffle/MainActivity.kt:91-92 | parsing `host:port` recovers any address whose host has no colon |
| MainActivity.FormatParsed | app/src/main/java/rs/ruffle/MainActivity.kt:91-92 | formatting a parsed text gives it back when its port is written canonically |
| MainActivity.NoColon | app/src/main/java/rs/ruffle/MainActivity.kt:91-92 | for any text without a colon both parts are the whole text: the result is host = the text with the text's `toInt()` as port, or the error naming the text |
| MainActivity.HostAloneIsRejected | app/src/main/java/rs/ruffle/MainActivity.kt:91-92 | any bare host name (no colon, at least one dot) fails with the error naming the whole text, because its port text is the host name |
| MainActivity.TableEntry | app/src/main/java/rs/ruffle/MainActivity.kt:24-92 | an entry written `host:port` with a port in 5588..5591 parses to that pair and formats back to itself |
| MainActivity.ServersRoundTrip | app/src/main/java/rs/ruffle/MainActivity.kt:24-92 | every table entry parses, formats back to itself, and has a port in 5588..5591 |
| MainActivity.LaunchGame | app/src/main/java/rs/ruffle/MainActivity.kt:90-100 | the launch succeeds iff the address parses; the intent starts the player on the loader URL with exactly the extras `aqw_host` = host and `aqw_port` = port |
| MainActivity.EveryButtonLaunches | app/src/main/java/rs/ruffle/MainActivity.kt:78-98 | every button launches, and its extras format back to its table entry |
| PlayerActivity.DecodeItem | app/src/main/java/rs/ruffle/PlayerActivity.kt:100-104 | an item fails to decode iff it has fewer than three spaces |
| PlayerActivity.DecodeWritten | app/src/main/java/rs/ruffle/PlayerActivity.kt:100-104 | three space-free flag words and a caption decode to those flags via `toBoolean`, with the caption's own spaces kept |
| PlayerActivity.DecodeItems | app/src/main/java/rs/ruffle/PlayerActivity.kt:99-104 | decoding every item in order, given no contract of its own; `DecodeItemsSpec`, `DecodeItemsAllOk` and `DecodeItemsFirstFailure` characterise it |
| PlayerActivity.DecodeItemsSpec | app/src/main/java/rs/ruffle/PlayerActivity.kt:99-104 | on success there is one decoding per item, in order; on failure the index names an item that does not decode, and every item before it decodes |
| PlayerActivity.DecodeItemsAllOk | app/src/main/java/rs/ruffle/PlayerActivity.kt:99-104 | items that all decode give exactly their decodings |
| PlayerActivity.DecodeItemsFirstFailure | app/src/main/java/rs/ruffle/PlayerActivity.kt:99-104 | the failure reported is the first item that does not decode |
| PlayerActivity.MenuFromLength | app/src/main/java/rs/ruffle/PlayerActivity.kt:99-114 | one entry per item plus `Exit` |
| PlayerActivity.MenuFromEntry | app/src/main/java/rs/ruffle/PlayerActivity.kt:105-111 | entry `i` belongs to item `i`, with id `id + i`, in the group that the separators up to it have raised the counter to |
| PlayerActivity.MenuFromExit | app/src/main/java/rs/ruffle/PlayerActivity.kt:113-114 | `Exit` comes last, in the group all the separators reach, with the id after the items' |
| PlayerActivity.MenuEntries | app/src/main/java/rs/ruffle/PlayerActivity.kt:98-114 | the entries of the decoded items followed by `Exit`, given no contract of its own; `MenuEntriesAt` gives each entry in closed form |
| PlayerActivity.MenuEntriesAt | app/src/main/java/rs/ruffle/PlayerActivity.kt:98-114 | entry `i` is item `i` in group 1 + separators up to `i`, with id `i`; `Exit` follows in group 1 + all separators with id `items.size` |
| PlayerActivity.ContextMenu | app/src/main/java/rs/ruffle/PlayerActivity.kt:91-114 | the popup as a value, given no contract of its own; `ShownIffWellFormed`, `DividersFromP`, `MenuIds`, `GroupsOrdered` and `CheckedOnly` state what it holds |
| PlayerActivity.ShowContextMenu | app/src/main/java/rs/ruffle/PlayerActivity.kt:91-126 | the loop builds exactly `ContextMenu`: the menu of the decoded items with dividers from Android P on and exit id `items.size`, or a crash at the first item that does not decode |
| PlayerActivity.GroupSteps | app/src/main/java/rs/ruffle/PlayerActivity.kt:98-114 | the first group is 1, or 2 when the first item has a separator; each item's group is the previous one plus one exactly when it has a separator; `Exit` shares the last item's group |
| PlayerActivity.GroupsOrdered | app/src/main/java/rs/ruffle/PlayerActivity.kt:98-114 | groups never go down along the menu, and `Exit`'s group is 1 + the number of separators |
| PlayerActivity.GroupsRise | app/src/main/java/rs/ruffle/PlayerActivity.kt:105-106 | an earlier entry's group is at most a later one's |
| PlayerActivity.MenuIds | app/src/main/java/rs/ruffle/PlayerActivity.kt:106-114 | entry `i` has id `i`, so all ids are distinct; `Exit` is last with id `items.size`; items keep their captions and enabled flags |
| PlayerActivity.CheckedOnly | app/src/main/java/rs/ruffle/PlayerActivity.kt:108-111 | an entry is checkable iff it is an item marked checked, and checked iff checkable |
| PlayerActivity.DividersFromP | app/src/main/java/rs/ruffle/PlayerActivity.kt:95-113 | group dividers are enabled iff the SDK is at least 28, and the exit id is `items.size` |
| PlayerActivity.ShownIffWellFormed | app/src/main/java/rs/ruffle/PlayerActivity.kt:99-124 | the popup is shown iff every item has at least three spaces; otherwise the crash is at the first item with fewer |
| PlayerActivity.OnMenuItemClick | app/src/main/java/rs/ruffle/PlayerActivity.kt:115-122 | the listener always reports the click as consumed |
| PlayerActivity.ClickDispatch | app/src/main/java/rs/ruffle/PlayerActivity.kt:113-121 | clicking an entry finishes the activity iff it is the last entry, `Exit`; clicking item `k` runs the callback with `k` |
| PlayerActivity.GatherAllDescendantsOfType | app/src/main/java/rs/ruffle/PlayerActivity.kt:251-261 | the result is the matching views of the tree in pre-order: the node itself first if it matches, then each child's results in child order |
| PlayerActivity.GatherFromChildren | app/src/main/java/rs/ruffle/PlayerActivity.kt:255-259 | the loop over the children appends their results in child order |
| PlayerActivity.FilterSubtree | app/src/main/java/rs/ruffle/PlayerActivity.kt:254-259 | the matches of a subtree are the node's own, then its descendants' |
| PlayerActivity.GatherCount | app/src/main/java/rs/ruffle/PlayerActivity.kt:251-261 | the result holds one view per matching node of the tree |
| PlayerActivity.DescendantsCount | app/src/main/java/rs/ruffle/PlayerActivity.kt:256-258 | the children's results together hold one view per matching node under them |
| PlayerActivity.NodeFirst | app/src/main/java/rs/ruffle/PlayerActivity.kt:254 | a matching node comes first in its own result; a non-matching one adds only its descendants |
| PlayerActivity.AfterTextChanged | app/src/main/java/rs/ruffle/PlayerActivity.kt:161-166 | text is sent iff `toString()` is non-empty: non-empty text is sent whole and the field is cleared; empty text sends nothing and changes nothing; a null `Editable` sends `"null"` |
| PlayerActivity.ClearSendsNothing | app/src/main/java/rs/ruffle/PlayerActivity.kt:163-165 | the watcher's second run on the cleared field sends nothing, so each typed text reaches the player once |
| PlayerActivity.OnKey | app/src/main/java/rs/ruffle/PlayerActivity.kt:172-177 | the listener consumes an event exactly when it calls `nativeOnBackspace`, and only for delete pressed down |
| PlayerActivity.BackspaceOnPressOnly | app/src/main/java/rs/ruffle/PlayerActivity.kt:172-177 | only the delete key's press (code 67, action 0) is consumed; its release is not |
| PlayerActivity.BackspacesCountPresses | app/src/main/java/rs/ruffle/PlayerActivity.kt:172-177 | over any run of key events, the player is sent one backspace per press of delete among them |
| PlayerActivity.ConfigFromExtras | app/src/main/java/rs/ruffle/PlayerActivity.kt:214-217 | the local port is always 8181; the host is the `aqw_host` string extra, or "socket.aq.com" without one; the port is the `aqw_port` int extra, or 5588 without one |
| PlayerActivity.DefaultsWithoutExtras | app/src/main/java/rs/ruffle/PlayerActivity.kt:214-217 | with no extras the relay targets socket.aq.com:5588 from local port 8181 |
| PlayerActivity.LaunchedConfig | app/src/main/java/rs/ruffle/PlayerActivity.kt:214-217 | launching any server button configures the relay for exactly that entry's host and port |
| PlayerActivity.ConfiguredForward | app/src/main/java/rs/ruffle/PlayerActivity.kt:214-218 | a session forwarded by the bridge configured from the intent's extras connects to the configured server first, then forwards the first bytes unchanged and starts both copies |
| PlayerActivity.LaunchedForward | app/src/main/java/rs/ruffle/PlayerActivity.kt:214-218 | after launching any server button, a forwarded session connects upstream to exactly the host and port of that button's table entry |
| PlayerActivity.Player.constructor | app/src/main/java/rs/ruffle/PlayerActivity.kt:29 | the activity starts without a bridge |
| PlayerActivity.Player.OnCreate | app/src/main/java/rs/ruffle/PlayerActivity.kt:213-221 | a new bridge is built with the configuration from the extras and started |
| PlayerActivity.Player.OnDestroy | app/src/main/java/rs/ruffle/PlayerActivity.kt:228-232 | the bridge, if any, is stopped; without one nothing changes |

## Left out

- Socket I/O (`ServerSocket`, `Socket`, `accept`, `read`, `write`, `flush`, `close`, `copyTo`) is left out because it is socket I/O. Operations appear as recorded effects. The outcome of each I/O call is a parameter: the read result, the index of the step that throws, the sequence of accept outcomes, and whether the bind succeeds.
- The two byte-copy threads are left out because their work is full-duplex concurrent copying. They appear only as the two `StartCopy` effects after the first upstream write.
- AqwBridge.HandleConnection: a fault stands for an `Exception` only. Three kinds of failure get past the `catch (e: Exception)` clauses, leaving the client unclosed, and they are not modelled:
  - an `Error` from the `thread { }` of `handleConnection` (`AqwBridge.kt:30`), such as the `OutOfMemoryError` of a thread that cannot be created. It is raised on the listener thread, escapes `handleConnection` past the catch at `AqwBridge.kt:23`, and ends the accept loop;
  - an `Error` from the `thread { }` of a copy task (`AqwBridge.kt:47-48`), which escapes the handler thread;
  - a `close()` inside the `catch` (`AqwBridge.kt:50`) that itself throws.

  The model takes that `close()` to succeed.
- Threads and concurrency are left out because they are outside a sequential model:
  - `thread { }` in `start` and `handleConnection`;
  - `runOnUiThread`;
  - the race between `running`, `accept` and `stop`.

  The accept loop reads `running` as it stood when the loop began, and a handler runs as a value per client.
- AqwBridge.AsciiBytes: the model's encoding is one byte per character. Kotlin's `String(buffer, 0, read)` decodes as UTF-8 and `toByteArray()` encodes as UTF-8. The two agree on the ASCII texts involved: the probe and the policy document. The probe is searched for at the byte level, which is exact because UTF-8 never places an ASCII byte inside a multi-byte sequence and the decoder keeps an ASCII byte that follows a malformed sequence; so the decoded text contains the probe exactly when the bytes do. The UTF-8 decoding itself is not modelled.
- KotlinText.ParseInt: only ASCII digits are accepted. The JVM's `parseInt` also accepts other Unicode decimal digits.
- KotlinText.ToBooleanIgnoresCase: case is folded for ASCII letters only. Kotlin's ignore-case comparison also folds other scripts, but none of them spells "true".
- PlayerActivity.ShowContextMenu: the setters are applied to the item value before it is appended, instead of to the item inside the menu. The resulting menu is the same.
- The following are left out because they are UI rendering, layout and platform plumbing with no decision logic:
  - Compose UI and layout;
  - `PopupMenu` rendering and `popup.show()`;
  - the dismiss listener (`clearContextMenu`);
  - window insets;
  - `hideSystemUI` and `requestNoStatusBarFeature`;
  - the soft keyboard;
  - `onConfigurationChanged`;
  - the surface-view substitution.
- The following are left out because they are foreign code:
  - JNI calls (`nativeInit`, `keydown`, `keyup`, `requestContextMenu`, `runContextMenuCallback`, `nativeOnTextInput`, `nativeOnBackspace`);
  - `System.loadLibrary`.

  They appear only as recorded results (`RunCallback`, `TextChange.sent`, `KeyOutcome.backspaceSent`).
- The following PlayerActivity getters and helpers are platform or filesystem access and are left out: `swfBytes`, `swfUri`, `traceOutput`, `navigateToUrl`, the surface getters, `getAndroidDataStorageDir` and `isGooglePlayGames`.
- The `PanicActivity` crash handler is left out for the same reason.
- Logging is left out.
- The exception that `onCreate` catches around the bridge is left out, because constructing and starting the bridge cannot throw in the model.
- A view's identity is its `ref`, and the collector returns refs. This stands in for the object references the Kotlin list holds. Class membership is a set of class names standing in for `Class.isInstance`.
- Intents keep only the target activity, the data URI and the extras.
