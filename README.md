# cryptoBotRelay core, modelled in Dafny

The relay watches two chat channels. On every tick it reads each channel's message list,
takes the newest message, skips it if it is a reply, and extracts the first base-58-looking
token (`/[1-9A-HJ-NP-Za-km-z]{32,44}/g`, first match). It then relays that token into a
compose box. A bounded, insertion-ordered set of already-relayed addresses
(`processedAddresses`, at most 1000 entries, oldest evicted first) makes sure no address is
relayed twice.

The model has four modules:

- `Wrappers` (`wrappers.dfy`): the `Option` type.
- `AddressExtractor` (`extractor.dfy`): the per-channel extraction as pure functions.
  - `Includes` is `String.prototype.includes`.
  - `RunLength` and `MatchesFrom` are the regex engine's leftmost-greedy global search.
  - `GlobalMatch` is `String.prototype.match` (null or the array of matches).
  - `Candidate` is the per-channel decision.
  - They are proved against independent definitions: `OccursAt` (an occurrence),
    `IsMatchAt` (a match of the pattern) and `IsFirstMatch` (the leftmost match, longest at
    its position).
- `Dedup` (`ledger.dfy`): the ledger.
  - A class `Ledger` whose `entries: seq<string>` field is updated in place by `Record`
    (`add`, then `delete` of the first value when the size passes 1000) and read by `Has`.
  - The function `Recorded` states the new contents, and lemmas prove its FIFO and bound
    properties.
- `Relay` (`relay.dfy`): `processAddress` and one tick of the loop, as methods on the
  ledger.
  - The browser steps are a parameter (`StepOutcome`: all complete, or one of clear, type,
    wait-for-send-button, click throws).
  - So is the webhook outcome (`Delivery`).
  - The spec functions `Processed`, `AfterTick` and `TickNotices` give the resulting ledger
    and notifications.

The source keeps the ledger in a module-level `Set`. The model passes the one `Ledger`
object to `ProcessAddress` and `Tick`.

## Model

| member | source | states |
|---|---|---|
| `AddressExtractor.IncludesIffOccurs` | index.js:206 | `Includes(s, t)` holds exactly when `t` occurs somewhere in `s` |
| `AddressExtractor.RunLength` | index.js:207 | the run from `i` stays inside the text, is all address characters, and is maximal (it ends at the text's end or at a non-address character) |
| `AddressExtractor.MatchesFrom` | index.js:207 | every match reported by the global search is 32-44 characters long, all from the alphabet |
| `AddressExtractor.GlobalMatch` | index.js:207-208 | a non-null match result holds at least one match, so `match[0]` exists |
| `AddressExtractor.MatchesFromHead` | index.js:207 | the first match reported from `i` starts at the first position at or after `i` with a run of at least 32, and takes min(44, run) characters |
| `AddressExtractor.FirstMatchIsLeftmostLongest` | index.js:207-209 | the match result is null exactly when the text holds no match; otherwise `match[0]` is the leftmost match, the longest one at its start |
| `AddressExtractor.FirstMatchIsReported` | index.js:207-209 | whenever a leftmost-longest match exists, `match[0]` is exactly that substring |
| `AddressExtractor.FirstMatchStartsRun` | index.js:207 | the first match begins a maximal run of address characters, and its length is min(44, length of that run) |
| `AddressExtractor.Candidate` | index.js:203-208 | an empty list yields no candidate; a candidate comes from a newest message without the reply marker, is 32-44 characters long and lies wholly in the alphabet |
| `AddressExtractor.CandidateCharacterised` | index.js:203-209 | a candidate exists iff there is a message, the newest has no "Replied to @", and it holds a match; the candidate is then its leftmost-longest match |
| `AddressExtractor.ReplyYieldsNothing` | index.js:205-206 | a newest message containing "Replied to @" yields no candidate, whatever else it contains |
| `AddressExtractor.OnlyNewestMessageCounts` | index.js:203-204 | messages before the newest one never change the candidate |
| `AddressExtractor.CandidateExcludesLookalikes` | index.js:207 | a candidate never contains `0`, `O`, `I` or `l` |
| `AddressExtractor.SeparatedAddressIsCandidate` | index.js:206-209 | a non-reply message with one well-formed address, set off by separators and with nothing address-like before it, yields exactly that address |
| `AddressExtractor.SampleAddressWellFormed` | index.js:184 | the start-up sample address is 44 alphabet characters long and contains no `R` |
| `AddressExtractor.ReplyScenario` | index.js:206 | "Replied to @alice: " followed by the sample address yields no candidate |
| `AddressExtractor.AddressScenario` | index.js:207-209 | "gm check this " + sample address + " now" yields the sample address |
| `Dedup.Removed` | index.js:132 | `delete` removes `x` and keeps every other entry |
| `Dedup.RemovedHead` | index.js:131-132 | deleting the first value of a duplicate-free order drops exactly the head |
| `Dedup.RecordedValid` | index.js:127-133 | recording keeps the ledger duplicate-free and at most 1000 entries, and the address is present afterwards |
| `Dedup.RecordedIsFifo` | index.js:127-133 | recording a present address changes nothing; a new one is appended, and when the ledger held 1000 exactly the oldest entry is evicted, the rest keeping their order |
| `Dedup.RecordedAllValid` | index.js:15-17 | any sequence of records keeps the ledger duplicate-free and within 1000 |
| `Dedup.RecordedAllKeepsNewest` | index.js:127-133 | recording distinct new addresses leaves exactly the newest 1000 of everything recorded, in insertion order |
| `Dedup.ThousandAndOneEvictsFirst` | index.js:129-133 | after 1001 distinct addresses are recorded into an empty ledger, the 1st is absent and the 2nd-1001st are present |
| `Dedup.Ledger.constructor` | index.js:15 | the ledger starts empty and valid |
| `Dedup.Ledger.Has` | index.js:82 | `has` answers membership and changes nothing |
| `Dedup.Ledger.Record` | index.js:127-133 | `add` then evict-if-over-bound keeps the ledger valid, and its new contents are `Recorded(old contents, address)` |
| `Relay.ProcessAddress` | index.js:80-140 | returns true iff the address was not in the ledger and no browser step threw; the ledger is then `Recorded`, otherwise unchanged; a notification is posted iff true, and the webhook outcome affects neither the result nor the commit |
| `Relay.ProcessedIsFifoCommit` | index.js:126-135 | a relay keeps the ledger valid; it commits the address in FIFO order when it relays and changes nothing when it skips or fails |
| `Relay.SameAddressRelaysOnce` | index.js:82-84 | two calls with the same address never both relay; together they act like one call with the first outcome that completes |
| `Relay.Tick` | index.js:192-229 | a tick leaves the ledger valid; its new ledger and the notifications posted are channel 1's relay followed by channel 2's, or nothing if the reads fail |
| `Relay.SharedCandidateRelaysOnce` | index.js:203-223 | when both channels yield the same candidate in one tick, at most one notification is posted |
| `Relay.TickNoticesAreRecorded` | index.js:209-220 | after a tick the ledger is valid, and every address notified in the tick is in it (channel 2's commit never evicts channel 1's) |
| `Relay.QuietTickChangesNothing` | index.js:203-229 | a tick whose reads fail, or where neither channel yields a candidate, changes nothing and posts nothing |

## Left out

- Browser start-up: launching the browser, opening and navigating the three pages, and
  waiting for the selectors (index.js:142-181). This is an external browser library.
  Each relay gets only an abstract step outcome.
- The DOM work behind the four browser steps (index.js:89-121): CSS selectors, clearing
  `innerHTML`, typing, clicking. These are external calls and appear only as "completes"
  or "throws at this step". An unbounded wait for the send button corresponds to a run
  that never supplies an outcome, which a terminating model cannot express.
- The webhook's JSON embed and the `fetch` POST (index.js:30-78). This is network I/O.
  Only the fact that its failure is swallowed is kept: `Notification.delivered` records
  the outcome, and nothing else depends on it.
- `formatTimeCentral` (index.js:19-28). It is time-zone formatting done by the platform.
- The found and sent stamps, and the elapsed-time arithmetic (index.js:31, 86, 123). These
  are wall-clock reads, so the notification carries no times.
- The endless `while (true)` loop, the 10 ms delay, the `Promise.all` fan-out and
  `process.exit` (index.js:190-234). These are scheduling. One tick is modelled, with
  both reads arriving together or failing together (`Poll`).
- The start-up test send (index.js:184-187). It is one more `ProcessAddress` call with
  source `StartupTest`, and no tick reaches it. Its address is used as the sample in the
  scenario lemmas.
- Console logging of errors. It has no effect on state.
- String encoding: JavaScript compares UTF-16 code units and Dafny compares `char`
  values. The alphabet and the reply marker are ASCII, so the two agree on which
  characters match.
