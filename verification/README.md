# Grey-text command handler, modelled in Dafny

This project models the one piece of logic in a chat-bot plugin that sends "grey text"
(a dimmed system-style line) to a QQ group. The plugin handles the command
`#hz <content> <group>` in three steps:

1. It matches the message against `^#hz\s+(.+?)\s+(\d+)$`.
2. It finds a protocol client and builds a fixed raw packet with the content at field
   `25/1/28/2`.
3. It calls `send_packet` on the endpoint. If the endpoint does not know that action, it
   falls back to `_send_packet` and then to a plain `send_group_msg` carrying `[灰字] <content>`.

The handler sends exactly one reply back to the chat, with one modelled exception. If the group
number has more than 4300 digits, `int(...)` at main.py:64 raises `ValueError` outside any
`try`, so the handler ends with no call and no reply.

The model is pure and deterministic. The endpoint's answers are an input: a list of
outcomes (`Ok` or `Err(text)`), consumed one per remote call in order. The handler returns
a trace: the calls it made, each with the answer it got, followed by its one reply. The
trace is empty when the group-number conversion raises.

Modules, one per concern of `main.py`:

- `Text` (text.dfy): Python's `\s` class (`str.isspace`), ASCII `\d`, `int(...)` on digits
  and its digit-count limit, `str(...)` of a number, ASCII `lower` and the `in` substring test.
- `Command` (command.dfy): the command pattern, matched in the order Python's backtracking
  engine tries things. The first `\s+` is greedy, so it is tried longest first. For each of
  its lengths, the lazy `(.+?)` is tried shortest first. The rest of the pattern,
  `\s+(\d+)$`, is fixed once its start is known. `$` matches at the end of the string or
  before one final newline.
- `Packet` (packet.dfy): the nested packet as a tree of integer, string and ordered-object
  nodes, with path lookup.
- `Connection` (connection.dfy): choosing a client. If the event came from the target
  adapter, the handler uses that event's client. Otherwise it uses the client of the first
  registered platform, in list order, that is the target adapter.
- `Dispatch` (dispatch.dfy): the whole handler, `SendGrey`, and the fallback loop, plus
  lemmas about every path through it.
- `Scenarios` (scenarios.dfy): worked examples on concrete messages and answers.

Notes on the code as written:

- The plain-text tag is `[灰字] `.
- When the event comes from the target adapter, its client is used even if it is empty.
  In that case the handler reports that it has no connection; it does not go on to scan
  the registered platforms.
- The second fallback entry is listed as `send_forward_msg`, but the action actually
  issued is `send_group_msg`. The model issues `send_group_msg`.

## Model

| member | source | states |
|---|---|---|
| Text.NatToDecimal | main.py:126 | The group number in a reply is written the way Python's `str` writes an integer. It has at least one ASCII digit and no leading zero, and it is `"0"` exactly for zero. |
| Text.DecimalRoundTrip | main.py:64 | Parsing `str(n)` back with `int` gives `n` again, for every natural number. |
| Text.LeadingDigitPositive | main.py:64 | A digit string that does not start with `0` has a positive value. |
| Text.CanonicalRoundTrip | main.py:126 | If the group digits have no leading zero, the confirmation reply repeats them exactly as typed. |
| Command.RunEnd | main.py:55 | A greedy run stops at the first character outside its class. Every character before that point is in the class. |
| Command.TailIsRuns | main.py:55 | Any way `\s+(\d+)$` can match from a position uses the longest whitespace run there, then the longest digit run after it. |
| Command.TailUnique | main.py:55 | Once its start is fixed, `\s+(\d+)$` can match in at most one way. |
| Command.MatchTail | main.py:55 | The tail matcher succeeds exactly when the tail can match from that position, and it returns that one match. |
| Command.MatchLazy | main.py:55 | The lazy content group, tried from a given end onward, finds the shortest newline-free content after which the tail matches. It finds nothing only if no such content exists. |
| Command.MatchGreedy | main.py:55 | For leading whitespace of at most a given length, the match it returns has the longest possible leading whitespace and, for that length, the shortest content. It returns none only if no match of that kind exists. |
| Command.Match | main.py:55-56 | `re.match` returns a valid match whenever one exists, and it is the first one the engine tries. It returns none exactly when no match exists. |
| Command.MatchIsFirstSplit | main.py:55-56 | A match that no other match comes before is exactly the one reported. |
| Text.IsDigit | main.py:55 | Definition of `\d`, restricted to ASCII `0`-`9`. Command.TailIsRuns states that it and `\s` split the tail into two runs. |
| Text.IntMaxStrDigits | main.py:64 | Definition of CPython's default limit of 4300 digits for `int(...)` on a decimal string. Dispatch.SendGrey and Scenarios.OverlongGroupRaises state its effect. |
| Text.IsSpace | main.py:55 | Definition of `\s`: exactly the characters for which `str.isspace` holds. Command.TailIsRuns, Command.MatchGreedy and Command.ContentEndsTrimmed state what the pattern does with it. |
| Text.DecimalValue | main.py:64 | Definition of `int(...)` on a string of ASCII digits, leading zeros allowed. Text.DecimalRoundTrip and Text.CanonicalRoundTrip relate it to `str(...)`. |
| Command.Parse | main.py:55-64 | Group 1 is non-empty and has no newline, and group 2 is non-empty ASCII digits. There is a result exactly when the pattern matches. |
| Command.GroupId | main.py:64 | Definition of `int(match.group(2))` for a group short enough to convert. Dispatch.SendGrey and Dispatch.LocalErrors state that a longer group raises instead. Text.DecimalRoundTrip and Text.CanonicalRoundTrip carry its properties. |
| Command.Prefix | main.py:55 | Definition of the literal `#hz` that starts the pattern. Command.ParseShape and Command.ParseComplete state its place in a matched message. |
| Command.NoNewline | main.py:55 | Definition of what `.` matches without DOTALL: any character but a newline. Command.MatchLazy and Command.ParseShape state its effect. |
| Command.AtEnd | main.py:55 | Definition of `$` without MULTILINE: the end of the string, or just before one newline that ends it. Command.MatchTail, Command.Match and Command.ParseShape state its effect. |
| Command.SplitShape | main.py:55 | Any way the pattern matches cuts the message into `#hz`, whitespace, the content, whitespace, the digits, and at most one final newline. |
| Command.ParseShape | main.py:55-64 | A matched message is `#hz`, whitespace, the content, whitespace and the digits, optionally followed by one final newline. |
| Command.ParseComplete | main.py:55-60 | Every message of that shape matches, so it never gets the format-error reply. |
| Command.ContentEndsTrimmed | main.py:55-63 | Because the content group is lazy, content longer than one character never ends in whitespace. |
| Packet.GreyPacket | main.py:91-113 | Definition of the packet literal, with the content in field `25/1/28/2`. Packet.PacketContentSlot and Packet.PacketConstancy state its properties. |
| Packet.ContentPath | main.py:92-105 | Definition of the keys `25`, `1`, `28`, `2` that lead from the packet to the content. Packet.PacketContentSlot and Packet.PacketConstancy state its effect. |
| Packet.GetFirst | main.py:91-113 | A dict lookup finds the field with the key. |
| Packet.GetSameExceptAt | main.py:91-113 | Two field lists that agree away from a path give the same lookup for keys off that path, and related values for the key on it. |
| Packet.SameExceptAtAgrees | main.py:91-113 | Two packets that agree away from a path give the same value at every path that leaves it. |
| Packet.AtAppend | main.py:91-113 | Following two paths one after the other is the same as following them joined. |
| Packet.SameFieldsRefl | main.py:91-113 | A field list agrees with itself. |
| Packet.SameFieldsOneSlot | main.py:91-113 | Field lists that differ only in the field on the path agree away from the path. |
| Packet.PacketContentSlot | main.py:105 | The packet holds the content at `25/1/28/2`. |
| Packet.PacketConstancy | main.py:91-113 | Packets built for any two contents hold the same value at every path except the content slot, the packet itself and the three objects on the way to it. Every other field is a constant. |
| Packet.PacketDeterminesContent | main.py:91-113 | Different contents give different packets, because the content can be read back from the packet. |
| Connection.FirstAdapter | main.py:77-81 | The platform scan stops at the first target adapter in list order. If it finds none, no platform is a target adapter. |
| Connection.ResolveBot | main.py:71-85 | An event from the target adapter uses its own client. Any other event uses the first target adapter's client, and has a client exactly when that platform yields one. |
| Text.Lower | main.py:133 | Definition of `str.lower()` on ASCII letters, with every other character unchanged. Dispatch.FallbackIffUnsupported states its effect. |
| Text.Contains | main.py:133 | Definition of the `in` substring test: the text occurs at some position. Dispatch.FallbackIffUnsupported, Scenarios.NotFoundIsUnsupported and Scenarios.PermissionDeniedIsOther state its effect. |
| Dispatch.UnavailableReply | main.py:50 | Definition of the reply when the adapter module is missing. Dispatch.LocalErrors states when it is sent. |
| Dispatch.FormatErrorReply | main.py:59 | Definition of the reply when the message does not match. Dispatch.LocalErrors states when it is sent. |
| Dispatch.NoConnectionReply | main.py:86 | Definition of the reply when no client is found. Dispatch.LocalErrors states when it is sent. |
| Dispatch.SentReply | main.py:126 | Definition of the confirmation `灰字消息已发送到群 {group_id}`, also sent at main.py:162. Dispatch.PrimarySuccess and Dispatch.FallbackChain state when it is sent. |
| Dispatch.PlainSentReply | main.py:149-151 | Definition of the notice that the plain message was sent instead. Dispatch.FallbackChain states when it is sent. |
| Dispatch.ExhaustedReply | main.py:167-171 | Definition of the give-up reply quoting the primary error. Dispatch.FallbackChain and Dispatch.ExhaustedReplyIgnoresFallbackErrors state when it is sent. |
| Dispatch.FailedReply | main.py:173 | Definition of the failure reply for an error that is not about an unsupported action. Dispatch.FallbackIffUnsupported states when it is sent. |
| Dispatch.IsUnsupported | main.py:133 | Definition of the unsupported-action test: the lower-cased error contains "not found", or the error contains "不支持". Dispatch.FallbackIffUnsupported states its effect. |
| Dispatch.GreyTag | main.py:147 | Definition of the tag `[灰字] ` put in front of the content in the plain message. Dispatch.FallbackChain and Dispatch.DegradedPath state where it is sent. |
| Dispatch.Alternatives | main.py:135-138 | Definition of the fallback list, `_send_packet` then `send_forward_msg`. Dispatch.TryAlternatives and Dispatch.FallbackChain state how it is used. |
| Dispatch.AlternativeAction | main.py:140-160 | Definition of the call made for a fallback entry. `send_forward_msg` issues `send_group_msg` with `[灰字] ` and the content. Any other entry issues the raw-packet action under its own name. Dispatch.FallbackChain and Dispatch.DegradedPath state its effect. |
| Dispatch.AlternativeReply | main.py:149-162 | Definition of the reply after a fallback succeeds: the plain-text notice for `send_forward_msg`, otherwise the normal confirmation. Dispatch.FallbackChain states its effect. |
| Dispatch.TryAlternatives | main.py:135-171 | The fallback loop tries the alternatives in order and stops at the first success, replying for that alternative. It gives up only after trying all of them, and then replies with the primary call's error. Every run has exactly one reply, at the end. |
| Dispatch.PrependAlternative | main.py:140-165 | A failed call of the first alternative, in front of a run over the others, gives a run over all of them. |
| Dispatch.PrependFailedCall | main.py:140-165 | Putting a failed call in front of a run gives another run. |
| Dispatch.SendGrey | main.py:49-173 | The trace is empty exactly when the message matches but its group has more than 4300 digits. Then `int` raises, and nothing is called or replied. Every other invocation ends with exactly one reply, as its last step. It makes at most 3 calls, all through the resolved client and none without one. Call i gets answer i, and each call after the first is made only because the one before it failed. |
| Dispatch.LocalErrors | main.py:49-87 | A remote call is made exactly when the module is available, the message matches, the group converts and a client is found. The checks run in that order. Each failing check except the group conversion gives one fixed reply that names it. A group of more than 4300 digits gives no call and no reply, even when there is no client. |
| Dispatch.PrimaryCall | main.py:115-124 | The first call is `send_packet` through the resolved client, with the parsed group id and the packet built from the parsed content. |
| Dispatch.PrimarySuccess | main.py:118-126 | If `send_packet` succeeds, it is the only call, and the reply confirms the group. |
| Dispatch.FallbackIffUnsupported | main.py:128-173 | Fallback runs exactly when the primary error contains "not found" (ignoring case) or "不支持". Any other error gets the failure reply at once, with no further call. |
| Dispatch.FallbackChain | main.py:133-171 | The fallback order is `_send_packet` with the same parameters, then `send_group_msg` with `[灰字] ` and the content. It stops at the first success. If both fail, the reply quotes the primary error. |
| Dispatch.DegradedPath | main.py:115-171 | When `send_packet` is refused as unsupported, `_send_packet` also fails and `send_group_msg` succeeds, the whole run is known exactly. It has three calls to the same bot, in that order. Both packet calls carry the same packet. The plain message is the tagged content. The reply is the plain-text confirmation. |
| Dispatch.ExhaustedReplyIgnoresFallbackErrors | main.py:164-171 | When every call fails, the reply depends only on the primary call's error. Whether there is any reply does not depend on the answers at all. |
| Dispatch.PacketIgnoresGroup | main.py:91-160 | The raw-packet calls of two commands carry identical packets exactly when the commands have the same content. This holds whatever groups they name and whatever answers each gets from the endpoint. |
| Dispatch.PacketCallsCarryContent | main.py:118-160 | Every raw-packet call carries the packet built from the parsed content. |
| Scenarios.LazyContentKeepsInnerDigits | main.py:55-64 | `#hz a 1 2` gives content `a 1` and group digits `2`. |
| Scenarios.WhitespaceBacktracksIntoContent | main.py:55-64 | `#hz` followed by four spaces and `5` gives a single space as content. |
| Scenarios.BareCommandIsFormatError | main.py:56-60 | `#hz` alone gets the format-error reply and makes no call. |
| Scenarios.HelloHasNoEarlierSplit | main.py:55-56 | No match of `#hz hello 123456789` comes before the intended one. |
| Scenarios.HelloMatches | main.py:55-56 | `#hz hello 123456789` matches with content at 4..9 and digits at 10..19. |
| Scenarios.NineDigits | main.py:64 | `int("123456789")` is 123456789. |
| Scenarios.HelloParses | main.py:55-64 | `#hz hello 123456789` gives content `hello` and group 123456789. |
| Scenarios.HelloIsSent | main.py:115-126 | If `send_packet` accepts that command, there is one call for group 123456789 with `hello` in the packet, then the confirmation. |
| Scenarios.NotFoundIsUnsupported | main.py:133 | "action not found" is classified as an unsupported action. |
| Scenarios.PermissionDeniedIsOther | main.py:133 | "permission denied" is not. |
| Scenarios.NotFoundFallsBackToPlainText | main.py:128-152 | After two "action not found" errors, the plain message `[灰字] hello` is sent and the reply mentions plain-text mode. |
| Scenarios.PermissionDeniedIsReported | main.py:128-173 | A "permission denied" error gets the failure reply, with no fallback call. |
| Scenarios.OverlongGroupRaises | main.py:55-64 | `#hz x` followed by 4301 digits matches the pattern. It still gets no call and no reply, because `int` refuses the group. |

## Left out

- Command.Parse: `\d` is restricted to ASCII `0`-`9`. Python also matches other Unicode decimal digits and `int` accepts them. For a message whose group is written in such digits, the model reports no match where Python would match.
- Dispatch.IsUnsupported lower-cases ASCII letters only. Python's `str.lower` also maps other letters, but none of them produces the ASCII letters of "not found". The only non-ASCII characters that lower-case to ASCII letters are KELVIN SIGN (to `k`) and LATIN CAPITAL LETTER I WITH DOT ABOVE (to `i` plus a combining dot). So the classification is the same. This argument is not proved in the model.
- Dispatch.SendGrey: only `Exception` is caught (main.py:128, 164). An error such as `asyncio.CancelledError`, raised by a call when the host cancels the task, ends the handler after that call with no reply. This is not modelled: every call's answer is `Ok` or `Err`.
- Dispatch.SendGrey requires at least three outcomes. Every remote call eventually returns or raises, and no path makes more than three calls. The model does not say what happens when the endpoint never answers.
- The host framework: plugin registration, the `filter.regex` and `filter.command` decorators, the `Star` and `Context` types, and the async-generator mechanics of `yield`. Replies are returned as trace steps.
- Text.IntMaxStrDigits: the limit is fixed at CPython's default of 4300. It can be changed by `sys.set_int_max_str_digits` or `PYTHONINTMAXSTRDIGITS`. Python versions before 3.10.7 have no limit. The model covers only the default configuration.
- What the host framework does with the `ValueError` that leaves the handler is not modelled. The model records only that no call and no reply follow.
- Logging (main.py:31, 66, 83, 125, 130, 161, 200). It has no effect on the behaviour.
- The network call `bot.call_action`. Its result is the next outcome in the list; an `Exception` becomes `Err` carrying `str(e)`.
- Type checks with `isinstance` and the platform manager. These are abstracted as a source tag on the event and a list of platforms, each with an "is the target adapter" flag. If listing the platforms raises, the model uses an empty list. If asking a platform for its client raises, the model treats that platform as having no client. Both paths lead to "no client", as in the code.
- The `send_group_msg` call passes its arguments as keywords rather than as `params` (main.py:142-148). The model records the action name, the group and the message segments, not how they are passed.
- `grey_help` (main.py:175-196) returns fixed help text, and `terminate` (main.py:198-200) only logs. Neither has behaviour to verify.
