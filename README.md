# RPC agent coordination helpers, modelled in Dafny

This project models the coordination helpers the RPC agents of a distributed
training job use to find each other and to synchronise. All of them talk only
through a shared key-value store:

- **Static name collection** (`collectNames`). Every worker of a group of known
  size publishes its name under its numeric id. It reads every other id's name
  and builds the name → id table. It fails as soon as a name repeats.
- **Dynamic registration** (`collectCurrentNames`). A worker claims its id key
  with a compare-and-set and publishes its name. It then reads the roster
  `AllWorkerInfos` (comma-separated `name-id` entries) into its table and
  appends its own entry. It fails when its id is held by another name, when a
  roster entry is malformed, or when a name repeats.
- **Tokenizer** (`splitString`). It splits a string at every occurrence of a
  delimiter, scanning with `find`.
- **Call-count barrier** (`getNextKeyIds`, `syncCallCount`). A process-wide
  counter names three fresh keys per barrier session. Each participant adds
  its active calls and counts itself in. The last arrival raises the ready flag.
  Every participant waits for the flag and reads back the total.

The store is a class over `map<string, string>` (module `KvStore`). It offers
set, get, check, compare-and-set and add, with the semantics the helpers rely
on. The compare-and-set swaps when the key holds the expected value, or when
the key is absent and the expected value is empty. It answers the value the key
holds afterwards when the key is present. When the key is absent and is left
alone (a non-empty expected value), it answers the expected value and the key
stays absent. Add treats an absent key as 0 and stores the new total as
decimal text.

A read that blocks until a key exists becomes a precondition that the key is
present:
- the static collection requires every other id in range to be published;
- the barrier is split at its wait. The arrival step (`ArriveAtBarrier`) has no
  such precondition. The read-back step (`ReadTotal`) requires the ready flag to
  be up. `SyncCallCount`, the two steps run back to back, therefore requires
  the flag to be up already or this caller to be the `worldSize`-th arrival.
  `SessionReadsSum` covers the participants that wait: the flag stays down
  until the last of them has arrived, and afterwards every read-back answers
  the sum of all contributions.

The barrier counter is a field of the `BarrierCounter` class. A ghost set
records every key handed out, so freshness is a preserved invariant.

Several pure functions serve as specifications:
- `Split`, `Join` and `Find` for the tokenizer;
- `EntryText`, `FormatRoster`, `ParseEntry`, `ParseAll` and `Absorb` for the
  roster;
- `Register`, one dynamic registration as a store transition;
- `Arrive` and `ArriveAll` for barrier arrivals.

The imperative members are proved equal to them. The lemmas then prove what
the callers of these helpers rely on:
- round trips;
- delimiter and key distinctness;
- the tables the workers build;
- sequential registration building the full roster;
- the barrier total being the sum of the contributions;
- separate barrier sessions not interfering.

Module layout: `Wrappers` (Option, Result), `Decimal` (base-10 text of
integers and reading it back), `Strings`, `KvStore`, `Registry` (id keys, the
roster key, errors), `StaticNames`, `Roster`, `DynamicNames` and
`CallCountBarrier`.

## Model

| member | source | states |
|---|---|---|
| Strings.SplitString | torch/csrc/distributed/rpc/agent_utils.cpp:44-57 | The scan loop returns exactly `Split(s, d)`: the text before each delimiter occurrence found by `find` from the current start, then the remainder after the last one. |
| Strings.Find | torch/csrc/distributed/rpc/agent_utils.cpp:51 | A position found lies at or after the start, with the whole delimiter inside the string. |
| Strings.Split | torch/csrc/distributed/rpc/agent_utils.cpp:44-57 | There is always at least one token. |
| Strings.FindSpec | torch/csrc/distributed/rpc/agent_utils.cpp:51 | `find(d, start)` answers the first position at or after `start` where `d` occurs, and answers nothing only when `d` occurs nowhere at or after `start`. |
| Strings.JoinSplit | torch/csrc/distributed/rpc/agent_utils.cpp:44-57 | Gluing the tokens back together with the delimiter gives back the input string: splitting loses and adds no character. |
| Strings.SplitTokensFree | torch/csrc/distributed/rpc/agent_utils.cpp:51-55 | No token contains the delimiter. |
| Strings.SplitCount | torch/csrc/distributed/rpc/agent_utils.cpp:51-55 | For a one-character delimiter there is one more token than occurrences of that character, so the empty string gives one empty token. |
| Strings.SplitFindsDelimiter | torch/csrc/distributed/rpc/agent_utils.cpp:51-55 | There is more than one token if and only if the delimiter occurs in the input. |
| Strings.SplitJoin | torch/csrc/distributed/rpc/agent_utils.cpp:95-97 | Splitting a list joined with a one-character delimiter gives back the original tokens, one for one, when no token contains the delimiter. |
| Decimal.IntRoundTrip | torch/csrc/distributed/rpc/agent_utils.cpp:168-169 | Reading back the base-10 text of any integer, negative ones included, gives that integer. |
| Decimal.IntToString | torch/csrc/distributed/rpc/agent_utils.cpp:16 | The text is non-empty; a non-negative integer gives only digits, a negative one starts with `-`. |
| Decimal.ParseInt | torch/csrc/distributed/rpc/agent_utils.cpp:100 | Text reads as a number exactly when it is a non-empty run of digits, or `-` followed by one. Only text starting with `-` reads as a negative number. |
| Decimal.IntToStringInjective | torch/csrc/distributed/rpc/agent_utils.cpp:16 | Two integers have the same decimal text if and only if they are equal. |
| Registry.IdKeysDistinct | torch/csrc/distributed/rpc/agent_utils.cpp:80-86 | Id keys of different ids differ, and no id key is the roster key `AllWorkerInfos`. |
| StaticNames.CollectNames | torch/csrc/distributed/rpc/agent_utils.cpp:8-42 | The store gains this worker's name under its id and nothing else. The call succeeds if and only if the names of this worker and ids `[0, worldSize)` are pairwise distinct. On success the table maps each such name to its id and holds nothing else. On failure it reports the first id whose name repeats, together with the earlier holder's id. |
| StaticNames.TableStep | torch/csrc/distributed/rpc/agent_utils.cpp:39 | Adding a name not yet in the table extends it to cover one more id. |
| StaticNames.DuplicateFound | torch/csrc/distributed/rpc/agent_utils.cpp:29-37 | A name already in the table is the first repeat: both ids hold it and all names read before were distinct. |
| StaticNames.TableNamesDistinct | torch/csrc/distributed/rpc/agent_utils.cpp:18-40 | A table built this way proves the names it was built from are distinct. |
| StaticNames.NameTablesAgree | torch/csrc/distributed/rpc/agent_utils.cpp:18-41 | Two workers of the same group reading the same store build the same table. |
| StaticNames.NameTableSize | torch/csrc/distributed/rpc/agent_utils.cpp:18-41 | With its own id in range, a worker's table has exactly `worldSize` entries. |
| Roster.EntryRoundTrip | torch/csrc/distributed/rpc/agent_utils.cpp:98-100 | An entry `name-id` written from a name without `,` or `-` and a non-negative id reads back as that name and id. |
| Roster.EntryHasNoComma | torch/csrc/distributed/rpc/agent_utils.cpp:114-117 | Such an entry never contains the entry separator `,`. |
| Roster.ParseAllTexts | torch/csrc/distributed/rpc/agent_utils.cpp:97-100 | Reading a list of such entries gives back the entries, in order. |
| Roster.RosterRoundTrip | torch/csrc/distributed/rpc/agent_utils.cpp:97-117 | Splitting a roster written from such entries gives their texts one for one, and reading them gives back exactly the entries. |
| Roster.RosterAppend | torch/csrc/distributed/rpc/agent_utils.cpp:114 | Appending `,name-id` to the roster of some entries gives the roster of those entries followed by the new one. |
| Roster.AbsorbSpec | torch/csrc/distributed/rpc/agent_utils.cpp:97-113 | The parse loop succeeds if and only if every entry is well formed and no entry repeats a name already in the table or an earlier one. It then returns the starting table with every entry added and earlier values kept. |
| Roster.AbsorbFailures | torch/csrc/distributed/rpc/agent_utils.cpp:98-110 | A malformed-entry failure carries the raw text of one of the entries that does not read. A repeated-name failure carries the name and id of one entry, and the id that name was already bound to, by the starting table or by an earlier entry. In both cases the entry is the first one the loop stops at: every entry before it reads, and none of their names is in the table or repeats. When every entry is well formed, a failure is a repeated name. |
| Roster.ParseEntry | torch/csrc/distributed/rpc/agent_utils.cpp:98-100 | An entry that does not split into a name and a readable id fails with that entry's text. A read name contains no `-`, and the entry starts with the name followed by `-`. |
| Roster.Absorb | torch/csrc/distributed/rpc/agent_utils.cpp:97-113 | On success the result keeps every binding of the starting table. A failure is a malformed entry or a repeated name, never a claimed id. |
| DynamicNames.CollectCurrentNames | torch/csrc/distributed/rpc/agent_utils.cpp:59-125 | The result and the new store are exactly the transition `Register` of the old store; the two lemmas below state what that transition does. |
| DynamicNames.RegisterClaim | torch/csrc/distributed/rpc/agent_utils.cpp:67-80 | Registration is refused with IdAlreadyClaimed exactly when the id key holds a different non-empty name; then the store is unchanged and the holder is reported. Otherwise the id key holds this worker's name. No key other than the id key and the roster changes. |
| DynamicNames.RegisterRoster | torch/csrc/distributed/rpc/agent_utils.cpp:82-122 | Without a roster, the result is the table of this worker alone. With one, the result is the parse loop over the roster's entries, starting from that table. Success appends `,name-id`, or writes `name-id` to a new roster. Failure leaves the roster untouched, and the roster only ever grows. |
| DynamicNames.SequentialRegistration | torch/csrc/distributed/rpc/agent_utils.cpp:114-122 | Workers with distinct writable names and distinct ids that register one after another leave a roster listing all of them in order. Each id key holds its worker's name, and nothing outside those keys and the roster is added. |
| DynamicNames.RegistrationSeesEarlier | torch/csrc/distributed/rpc/agent_utils.cpp:82-113 | The k-th of those workers succeeds, and its table maps exactly itself and every earlier worker to their ids. |
| DynamicNames.NewcomerRegisters | torch/csrc/distributed/rpc/agent_utils.cpp:82-118 | A worker with a free id key, arriving after a roster of distinctly named entries, succeeds with the table of those entries and itself. |
| DynamicNames.NewcomerTable | torch/csrc/distributed/rpc/agent_utils.cpp:97-113 | Parsing such a roster starting from the newcomer's own entry gives the table of all of them. |
| DynamicNames.ReusedIdRejected | torch/csrc/distributed/rpc/agent_utils.cpp:67-78 | After those registrations, another name claiming a registered worker's id is refused with the holder's name, and the store is left exactly as it was. |
| DynamicNames.ReusedNameRejected | torch/csrc/distributed/rpc/agent_utils.cpp:97-112 | After those registrations, a fresh id under the name of registered worker `i` is refused with DuplicateName carrying that name, the newcomer's id and worker `i`'s id. The roster is untouched, but the id key it claimed stays claimed under its name. |
| DynamicNames.RosterNameRepeated | torch/csrc/distributed/rpc/agent_utils.cpp:97-110 | Reading a roster of distinct writable entries, starting from a table that binds worker `i`'s name to another id, stops at worker `i`'s entry with DuplicateName of that name, the table's id and worker `i`'s id. |
| DynamicNames.Register | torch/csrc/distributed/rpc/agent_utils.cpp:59-125 | A successful registration's table binds the worker's own name to its id. |
| CallCountBarrier.KeysFor | torch/csrc/distributed/rpc/agent_utils.cpp:133-142 | The process-count, active-calls and ready keys of a session are pairwise distinct. |
| CallCountBarrier.Arrive | torch/csrc/distributed/rpc/agent_utils.cpp:154-161 | Both session counters still hold decimal text (or are absent) after an arrival, so the next `add` can read them. |
| CallCountBarrier.SessionKeysDistinct | torch/csrc/distributed/rpc/agent_utils.cpp:127-142 | The process-count, active-calls and ready keys of one session are pairwise distinct, and two different sessions share no key. |
| CallCountBarrier.BarrierCounter.GetNextKeyIds | torch/csrc/distributed/rpc/agent_utils.cpp:133-142 | The counter goes up by one. The three keys are `PROCESS_COUNT_ID_<n>`, `ACTIVE_CALLS_ID_<n>` and `READY_ID_<n>` for the new value `n`, and none of them was handed out before. |
| CallCountBarrier.ArriveEffect | torch/csrc/distributed/rpc/agent_utils.cpp:154-161 | One arrival adds its calls to the active-calls counter and 1 to the process count. The ready flag is up afterwards exactly when it was up already or this is the `worldSize`-th arrival. The `worldSize`-th arrival sets it to the empty marker; any other arrival leaves its value as it was. No key outside the session changes. |
| CallCountBarrier.ArriveAtBarrier | torch/csrc/distributed/rpc/agent_utils.cpp:151-161 | Takes the next session's keys, fresh against every earlier session, and leaves the store as `Arrive` of the old one. |
| CallCountBarrier.ReadTotal | torch/csrc/distributed/rpc/agent_utils.cpp:163-170 | With the ready flag up, answers the number held under the active-calls key. |
| CallCountBarrier.SessionReadsSum | torch/csrc/distributed/rpc/agent_utils.cpp:144-171 | In a session of exactly `worldSize >= 1` participants on fresh keys, the ready flag is down until the last one arrives. After that it is up, and every participant's read-back proceeds and answers the sum of all contributions. |
| CallCountBarrier.SyncCallCount | torch/csrc/distributed/rpc/agent_utils.cpp:147-171 | For a caller whose wait returns at once, takes the next session and leaves the store as `Arrive` of the old one. It answers the active-calls total stored under the session key: the old total plus this caller's calls. |
| CallCountBarrier.BarrierTotals | torch/csrc/distributed/rpc/agent_utils.cpp:144-171 | On fresh keys, after participants arrive one by one, the active-calls key holds the sum of their contributions and the process count their number. The ready flag is up exactly once `worldSize` of them (and at least one) have arrived, so nobody gets past the wait early. |
| CallCountBarrier.ArriveAllFrame | torch/csrc/distributed/rpc/agent_utils.cpp:131-142 | Arrivals at one session leave the keys of every other session untouched. |
| CallCountBarrier.BackToBackSessions | torch/csrc/distributed/rpc/agent_utils.cpp:131-171 | Two sessions run one after the other on fresh keys: the first leaves the second's keys unused, and afterwards each session's active-calls key holds the sum of its own contributions. |
| KvStore.Store.CompareSet | torch/csrc/distributed/rpc/agent_utils.cpp:68-69 | Swaps when the key holds the expected value, or is absent while `expected` is empty. Answers the value the key then holds when it is present, and `expected` when the key is absent and stays absent. |
| KvStore.Store.Set | torch/csrc/distributed/rpc/agent_utils.cpp:80 | Overwrites the key with the value and changes nothing else. |
| KvStore.Store.Get | torch/csrc/distributed/rpc/agent_utils.cpp:92 | Answers the value stored under a key that is present; the blocking read becomes that precondition. |
| KvStore.Store.Check | torch/csrc/distributed/rpc/agent_utils.cpp:87-88 | Answers true exactly when every key asked for is present. |
| KvStore.Store.Add | torch/csrc/distributed/rpc/agent_utils.cpp:155-156 | Adds to the counter, an absent key counting as 0. Stores the new total as decimal text and answers it. |

## Left out

- The store is an in-memory map. The prefix store, the network and byte
  vectors are not modelled: names and values are strings of characters.
- Blocking is not modelled. `get` and `wait` do not suspend; their condition
  becomes a precondition. A peer that never publishes, or a barrier that never
  fills, is outside the model.
- Concurrency is not modelled. Registrations and barrier arrivals are
  sequential transitions of one store. The roster read-then-append of
  `collectCurrentNames` is not atomic against concurrent appenders. The model
  covers only the serialized order callers must guarantee
  (`SequentialRegistration`), not interleavings.
- The counter is not atomic: `barrierId` is a plain field incremented by one
  caller at a time.
- Integer widths are not modelled. Integers are unbounded, so the 16-bit
  `worker_id_t`, the 32-bit result of `std::stoi` and `std::atomic<int>`, and
  the 64-bit store counter never wrap or overflow.
- Roster.ParseEntry: reads the id strictly, as an optional `-` followed by at
  least one digit. `std::stoi` also accepts leading blanks, a `+` sign and
  trailing junk (`"7x"` reads as 7), and throws on out-of-range values. Such
  entries are malformed in the model. Entries written by `collectCurrentNames`
  from a writable name and id (see `Writable` below) read back exactly. Other
  entries it writes can read differently: name `x-7y` with id 3 is written as
  `x-7y-3`, which `std::stoi` reads as name `x` with id 7 while the model
  reports it malformed; a negative id `-3` is written as `n--3`, whose empty
  second field `std::stoi` rejects with an exception, reported here as a
  malformed entry.
- The text of the error messages is not modelled; errors carry only the names
  and ids they report.
- Names containing `,` or `-`, and negative ids, are outside the round-trip
  lemmas (`Writable`). Such entries do not read back: `a-b` with id 3 is written
  as `a-b-3` and read as name `a` with the malformed id `b`.
- DynamicNames.RegisterClaim: an id key holding the empty name counts as free,
  because compare-and-set with an empty expected value swaps on it. A worker
  registered under the empty name therefore does not protect its id. The
  contract states this as the source does; `ReusedIdRejected` requires the
  reused worker's name to be non-empty.
- StaticNames.CollectNames: the table's `reserve(worldSize)` is a capacity hint
  with no observable effect and is not modelled.
- Strings.Split: requires a non-empty delimiter. With an empty delimiter
  `find` matches at the start position every time, so the source's loop never
  ends; the helpers only split at `,` and `-`.
- Strings.SplitString: requires a non-empty delimiter, for the same reason.
- CallCountBarrier.SyncCallCount: as one call it covers only a caller whose
  wait returns at once. A participant that waits is modelled as
  `ArriveAtBarrier`, then the other arrivals, then `ReadTotal`, with
  `SessionReadsSum` stating what that read-back answers. The suspension itself
  is not modelled.
- CallCountBarrier.SyncCallCount: requires both session counters to be absent
  or to hold decimal text (`Counters`). A counter holding anything else makes
  the store's `add` or `std::stoi` throw; that error path is not modelled.
- CallCountBarrier.Arrive: requires the same of both session counters, for the
  same reason.
- CallCountBarrier.ArriveAtBarrier: requires the same of both session
  counters, for the same reason.
- CallCountBarrier.ReadTotal: requires the active-calls key to hold decimal
  text, because `std::stoi` throws on anything else.
- KvStore.Store.Add: requires the key to be absent or to hold decimal text
  (`HoldsCounter`); a store refuses `add` on any other value, and that error
  path is not modelled.
- Strings.SplitCount: stated only for one-character delimiters, the only kind
  the helpers use. Occurrences of a longer delimiter can overlap, and the scan
  counts them greedily.
