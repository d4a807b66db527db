# nsq-seneca: a verified model of the transport's deterministic core

nsq-seneca connects a Seneca service to the NSQ message broker. A
*forward* plugin publishes matching Seneca messages to an NSQ topic. A
*handle* plugin reads a topic and channel and hands each message back to
Seneca. This project models the deterministic logic in the repository's
TypeScript sources and proves properties of it with Dafny:

- `js.dfy` (`Js`): the JavaScript values that option records and messages
  carry. It covers property lookup, where a missing key reads as
  `undefined`, plus `typeof`, conversion to string, decimal numerals and
  the truncating `%` operator.
- `nsqt.dfy` (`Nsqt`): the plugin's option handling from `src/nsqt.ts`.
  This covers the defaults table, `fillNsqOptions`, `options`,
  `makePluginName` and `makeBasePattern`. It also covers three rules taken
  out of the broker plumbing: the forwarder refuses messages that carry a
  `chan`, the reader's channel defaults to the topic, and the reader adds
  `chan` and `nsq$` to each inbound message.
- `main_options.dfy` (`MainOptions`): the second, type-checked
  `fillNsqOptions` of `src/main.ts`.
- `areas.dfy` (`Areas`): the area worker's presence table from
  `src/examples/areas.ts`. It is a class whose `areas` map is updated in
  place by `updateUser` and by `processPeriod`, which evicts idle users.
- `time_format.dfy` (`TimeFormat`): `millisecondsToString`, the
  `HH:MM:SS:mmm` time-of-day formatting.
- `users.dfy` (`Users`): `areaFromUser`, the count-down loop that
  chooses a user's area.

The loops in the source are methods. `FillNsqOptions` in both `Nsqt`
and `MainOptions`, `AgeUsers` and `AreaTable.ProcessPeriod` are each
proved against a specification function, and lemmas then state what the
source promises about those functions. `AreaFromUser` is proved directly
against postconditions that characterise the area it returns.

The code below `options` works on freshly built local records, so
`Options`, `PluginName`, `BasePattern` and the lifted rules are functions
on values.

## Model

| member | source | states |
|---|---|---|
| `Js.TypeOf` | src/main.ts:22 | `typeof` is "undefined" exactly for undefined, "string" exactly for strings and "number" exactly for numbers |
| `Js.DecimalValue` | src/examples/millisecondsToString.ts:2 | the numeral a non-negative integer converts to is all digits and reads back as that integer |
| `Js.Rem` | src/examples/users.ts:18 | JavaScript's `%` is zero exactly when the Euclidean remainder is zero; it agrees with it for non-negative dividends and lies in (-b, 0] for negative ones; the dividend minus the result is always a multiple of the divisor |
| `Nsqt.FillNsqOptions` | src/nsqt.ts:46-59 | the key-by-key loop builds exactly the filled record `Filled(options)` |
| `Nsqt.FilledKeepsDefined` | src/nsqt.ts:51-53 | for every key of the defaults table, a defined supplied value is kept unchanged |
| `Nsqt.FilledUsesDefault` | src/nsqt.ts:36-56 | for every key of the defaults table, an undefined or missing value is replaced by the default |
| `Nsqt.FilledKeys` | src/nsqt.ts:46-58 | the result holds exactly the default keys, plus `topic` when the supplied topic is a string; any other key, such as `maxInFlight`, is dropped; no default key is undefined |
| `Nsqt.FilledIdempotent` | src/nsqt.ts:46-59 | filling an already filled record gives the same record |
| `Nsqt.Options` | src/nsqt.ts:61-66 | the result has the default keys and `topic`; `topic` and `chan` are the given ones whatever `o` held; every other key is as filling left it; the result is already filled |
| `Nsqt.PluginName` | src/nsqt.ts:68-74 | the name starts with `nsqt::<kind>::<topic as a string>` and continues with `::<chan>` when `chan` is a string, with nothing otherwise |
| `Nsqt.PluginNameFields` | src/nsqt.ts:68-74 | when topic and channel contain no colon, the name splits at "::" into `nsqt`, the kind and the topic, plus the channel exactly when `chan` is a string |
| `Nsqt.PluginNamesOfKindsDiffer` | src/nsqt.ts:68-74 | a forward plugin and a handle plugin never get the same name |
| `Nsqt.PluginNameOfOptions` | src/nsqt.ts:61-74 | the name of `options(o, t, c)` is `nsqt::<kind>::t`, followed by `::c` exactly when a channel is given |
| `Nsqt.BasePattern` | src/nsqt.ts:76-80 | the base pattern has exactly one key, the string form of `topicProperty`, and it maps to the topic |
| `Nsqt.BasePatternOfOptions` | src/nsqt.ts:61-80 | for `options(o, t, c)` the base pattern is `{p: t}`, where `p` is the supplied topic property or "role" |
| `Nsqt.ForwardMessage` | src/nsqt.ts:99-105 | the forwarder publishes exactly the messages without a `chan`, unchanged and to the configured topic; any message with a `chan` is refused with an error |
| `Nsqt.ReaderChannel` | src/nsqt.ts:125 | the reader's channel is `chan` when that is a string, otherwise the topic |
| `Nsqt.ReaderChannelOfOptions` | src/nsqt.ts:125 | a reader configured by `options(o, t, c)` reads channel `c`, or `t` when no channel is given |
| `Nsqt.Inbound` | src/nsqt.ts:132-137 | an inbound message gains `chan`, set to the reader's channel, and `nsq$`, set to `{time, id}`; it keeps every other field |
| `Nsqt.InboundNotForwarded` | src/nsqt.ts:100-137 | a message augmented by a reader that has a topic or channel carries a `chan`, so any forwarder refuses it |
| `MainOptions.FillNsqOptions` | src/main.ts:19-29 | the key-by-key loop under the typeof guard builds exactly the filled record `Filled(options)` |
| `MainOptions.FilledKeys` | src/main.ts:12-21 | the result holds exactly `lookupdHost`, `lookupdPort`, `nsqdHost` and `nsqdPort` |
| `MainOptions.FilledKeepsExactlyMatching` | src/main.ts:22-26 | a supplied value is kept exactly when its typeof equals the default's; otherwise the default is used; every result value has its default's type |
| `MainOptions.FilledIdempotent` | src/main.ts:19-29 | filling an already filled record gives the same record |
| `Areas.AgeUsers` | src/examples/areas.ts:70-77 | the inner loop yields exactly the aged users: each count is one higher, and those above `MAX_IDLE_PERIODS` are removed |
| `Areas.AreaTable.constructor` | src/examples/areas.ts:99 | the table starts empty and well formed |
| `Areas.AreaTable.UpdateUser` | src/examples/areas.ts:37-60 | afterwards `areas[a].users[u]` exists, has the given time and idle count 0, and is the returned record; an existing area record and its other users are kept; every other area is unchanged; a well-formed table stays well formed |
| `Areas.AreaTable.ProcessPeriod` | src/examples/areas.ts:62-89 | the nested loops leave the table as `AfterPeriod` of the old one; a well-formed table stays well formed |
| `Areas.PeriodAgesUsers` | src/examples/areas.ts:70-76 | a user present at entry survives a period exactly when its incremented count is at most 3, and its count is then one higher |
| `Areas.PeriodRemovesEmptyAreas` | src/examples/areas.ts:79-87 | after a period no area is empty, and an area is removed exactly when all of its users were evicted |
| `Areas.PeriodPreservesWellFormed` | src/examples/areas.ts:62-89 | a period keeps every idle count within 0..3 and every area non-empty; afterwards every remaining count is in 1..3 |
| `TimeFormat.MillisecondsToString` | src/examples/millisecondsToString.ts:1-8 | the result has 12 characters: colons at positions 2, 5 and 8, and digits everywhere else |
| `TimeFormat.Padded` | src/examples/millisecondsToString.ts:2-6 | `(zeros + n).slice(-width)` is the last `width` characters of the prefixed numeral, or all of it when it is shorter |
| `TimeFormat.PaddedValue` | src/examples/millisecondsToString.ts:2-6 | for the two paddings the function performs, width 2 after the prefix "0" and width 3 after "00", a number below 10^width gives exactly `width` digits that read back as the number |
| `TimeFormat.TimeFields` | src/examples/millisecondsToString.ts:2-7 | the four fields read back as floor(ms/3600000) mod 24, floor(ms/60000) mod 60, floor(ms/1000) mod 60 and ms mod 1000 |
| `TimeFormat.SameStringSameTimeOfDay` | src/examples/millisecondsToString.ts:1-8 | two readings give the same string exactly when they agree modulo 86,400,000 |
| `Users.AreaFromUser` | src/examples/users.ts:16-22 | the loop stops with an area in 1..3 that divides the user number, and no larger area up to 3 divides it |

## Left out

- The event wiring of `forward` and `handle` (src/nsqt.ts:82-157) is not modelled. This covers the NSQ `Writer` and `Reader` connections, `setTimeout` delays, the READY/CLOSED/ERROR callbacks and reconnection, `msg.finish`/`msg.requeue`, JSON decoding of payloads, and Seneca's `add`/`act`. These are I/O and calls into foreign libraries. Only the decision rules inside them are modelled.
- `Nsqt.ForwardMessage` does not model the publish callback's error result. `Nsqt.Inbound` takes the decoded message as an object. A payload that fails to decode is requeued, and that path is not modelled.
- `src/nsqjs.d.ts` holds type declarations only.
- Not modelled: the example programs `send.ts`, `recv.ts`, `arch.ts`, `w1.ts` and `w2.ts`, and the `s.ready`, `setInterval` and `console.log` parts of `areas.ts` and `users.ts`. They consist of service wiring, timers and logging.
- `src/examples/defaultOptions.ts` and `src/examples/shardedOptions.ts` only pass constant data to `options`. The `sharding` field they add is never read.
- `src/test/test.ts` does not match the code. It reads functions that `src/main.ts` does not export, expects `NSQ::t` names and expects an `isHandler` key. No property is taken from it.
- JavaScript numbers are modelled as integers. `millisecondsToString` takes a non-negative integer; the `Date.now()` reading becomes that parameter. `Users.AreaFromUser` takes an integer user number.
- `Users.AreaFromUser`: does not model a fractional or NaN user number. For such a value `user % area` is never 0, so the loop of src/examples/users.ts:18-20 never ends (for 2.5 it counts down through 0 and the negative numbers forever). The integer parameter excludes exactly those inputs; the example's callers pass the integers 1 to 5.
- `Js.ToStr` writes numbers as integers. `Js.TypeOf` has no cases for functions, symbols or bigints.
- Property lookup sees own properties only. Inherited properties, such as `toString` on a plain object, are not modelled.
- `Js.Rem` is defined for positive divisors only, the only ones the source uses.
- `Areas.AreaTable.UpdateUser` stores the area and user records as values in the table's map. The returned user is equal to the stored record, but the model does not share it as the same object.
- `Areas.AreaTable.ProcessPeriod` and `Areas.AgeUsers` visit keys in an arbitrary order instead of insertion order. Their results do not depend on the order.
- `Nsqt.Options`, `Nsqt.PluginName` and `Nsqt.BasePattern` are functions. The source builds the same values by assigning into freshly created local objects, which no caller can observe.
