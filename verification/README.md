# osrs-hiscores client, modelled in Dafny

This project models the core of the Go client `osrs-hiscores`. The client fetches an Old School RuneScape player's statistics from the leaderboard's plain-text endpoint and parses them. It keeps each player's record in an in-memory cache for `CACHE_TTL` = 3600 seconds, and evicts a stale record lazily, on the first read that finds it stale. It answers skill-level, rank and xp questions from that cache.

The modules follow the program's structure:

- `Errors`: the failure kinds and a `Result` type.
- `Strings`: Go's `strings.Split`, `strings.Join` and `strings.Count` for a one-character separator, with split/join round trips.
- `Strconv`: the value `strconv.ParseInt(s, 10, 32)` returns when the caller discards its error. A syntax error reads as 0. An out-of-range number reads as the nearest 32-bit bound. `ParseUint`'s scan reports the range error at the first digit that overflows, before it looks at the characters that follow.
- `Parser`: the payload parser inside `GetPlayer`. It splits the body on newlines and reads one "xp,level,rank" row per catalog skill, by position.
- `Hiscores`: the service state (cache plus skill catalog), `NewHiscores`, `isValidSkill`, `GetPlayer`, the three `GetPlayerSkill*` lookups and `Player.GetSkill`.
- `CacheProperties`: properties across calls, covering the freshness window, eviction and refill, failed fetches, and the lookups' bounded self-call.
- `ParserExamples` and `Scenarios`: concrete rows and payloads, the shipped catalog, the usage example's "strength" lookup, and the `GetSkill` empty-name quirk.

The clock and the remote read are inputs:

- `GetPlayer(h, rsn, now, response)` receives the current time in whole seconds and the response the remote read would produce. It returns a `Step`: the new state, the result and the number of remote reads made (0 or 1).
- The lookups call themselves after a successful fetch. They receive a sequence of `Round`s, one clock reading and one would-be response per attempt.
- A lookup whose readings run out before it finishes reports `Pending`.
- `CacheProperties.LookupTerminates` shows that two readings less than a TTL apart always suffice.

The invariant `Hiscores.Valid` states that every cached record is filed under its own player name and holds statistics for exactly the catalog's skills. `NewHiscores` establishes it and every operation preserves it. The Go lookups rely on it when they dereference `player.stats[skill]`.

## Model

| member | source | states |
|---|---|---|
| Strings.Split | hiscores.go:85 | `strings.Split` with a one-character separator: a split always has at least one piece |
| Strings.SplitWithoutSeparator | hiscores.go:85 | a string without the separator splits into itself alone, so the empty string gives one empty piece |
| Strings.SplitPiecesOmitSeparator | hiscores.go:85 | no piece of a split contains the separator |
| Strings.JoinSplit | hiscores.go:85 | joining the pieces of a split with the separator gives back the string |
| Strings.SplitJoin | hiscores.go:88 | splitting a join of separator-free pieces gives back the pieces |
| Strings.SplitLength | hiscores.go:88-89 | a string splits into one more piece than it has separators, so a row has three fields exactly when it has two commas |
| Strings.SplitAppend | hiscores.go:85 | the pieces of `a + sep + b` are those of `a` followed by those of `b` |
| Strconv.ScanDigits | hiscores.go:92-94 | `ParseUint`'s digit loop: a value it yields is at least the digits already read and at most 2^32 - 1 |
| Strconv.ParseUint32 | hiscores.go:92-94 | the unsigned scan never yields a value above 2^32 - 1 |
| Strconv.ParseInt32 | hiscores.go:92-94 | the value `strconv.ParseInt(_, 10, 32)` returns with its error discarded always lies in the signed 32-bit range |
| Strconv.ScanAllDigits | hiscores.go:92-94 | on a digit string the scan returns the decimal value, or a range error when that exceeds 2^32 - 1 |
| Strconv.ScanStopsAtNonDigit | hiscores.go:92-94 | a non-digit reached before the value overflows makes the scan a syntax error |
| Strconv.ScanOverflowsFirst | hiscores.go:92-94 | digits whose value already exceeds 2^32 - 1 make the scan a range error whatever follows them |
| Strconv.ParseIntOverflowsFirst | hiscores.go:92-94 | a field whose leading digits exceed 2^32 - 1 reads as the 32-bit bound of its sign even when non-digits follow |
| Strconv.ParseIntOfDigits | hiscores.go:92-94 | an optional sign followed by digits reads as the signed value clamped to 32 bits |
| Strconv.ParseIntOfNonDigit | hiscores.go:92-94 | a field with a non-digit after a non-overflowing digit prefix reads as 0 |
| Strconv.ParseIntOfNoDigits | hiscores.go:92-94 | an empty field, a lone sign, or a sign followed by a second sign reads as 0 |
| Strconv.ParseFormatInt | hiscores.go:92-94 | every 32-bit value survives decimal rendering and parsing |
| Strconv.DecimalFormatNat | hiscores.go:92-94 | the digits rendered for `n` read back as `n` |
| Parser.ParseRow | hiscores.go:88-95 | a row parses exactly when it has two commas, else fails with `MalformedRow`; every field fits 32 bits |
| Parser.ParseRows | hiscores.go:87-96 | reading the catalog's rows fails only with `MalformedRow` or `RowOutOfRange` |
| Parser.ParseRowsOutcome | hiscores.go:87-91 | the parse succeeds iff every catalog position has a three-field row; fails with `MalformedRow` iff some present row is misshapen; fails with `RowOutOfRange` iff rows run out and all present rows are well shaped |
| Parser.ParsePayload | hiscores.go:85-96 | the split-and-read of a body: on success the keys are exactly the catalog's names; it fails only with `MalformedRow` or `RowOutOfRange` |
| Parser.ParseRowsKeys | hiscores.go:87-95 | a successful parse maps exactly the catalog's names |
| Parser.ParseRowsStep | hiscores.go:87-95 | reading one more catalog name adds exactly the entry its row parses to, under that name, to what the shorter catalog read |
| Parser.ParseRowsValues | hiscores.go:87-95 | the name at catalog position i holds what row i parses to (unless the name appears again later) |
| Parser.ParseRowsOfRendered | hiscores.go:87-95 | rows that each parse to the statistics of their catalog name produce the map restricted to the catalog |
| Parser.ParseFormatRow | hiscores.go:88-95 | a row rendered as "xp,level,rank" parses back to the same statistics |
| Parser.ParseFormatPayload | hiscores.go:82-96 | a payload rendered from a catalog-keyed, 32-bit map parses back to that map |
| Parser.ParseRowsReadsPrefix | hiscores.go:87-88 | only the first catalog-length rows are read |
| Parser.ParseIgnoresTrailingRows | hiscores.go:85-88 | text appended after a complete payload does not change the parse |
| Hiscores.NewHiscores | hiscores.go:41-49 | a new service has an empty cache and the 24-skill catalog, and satisfies the invariant |
| Hiscores.IsFresh | hiscores.go:63-64 | a record is fresh at the moment of its stamp and stale from `CacheTtl` seconds after it |
| Hiscores.FreshnessMonotone | hiscores.go:63-64 | freshness only runs out: fresh at a time means fresh at every earlier time, stale means stale at every later time |
| Hiscores.IsValidSkill | hiscores.go:51-58 | the linear search answers true exactly when the name is in the list |
| Hiscores.GetPlayer | hiscores.go:61-100 | catalog unchanged; at most one remote read; other players' entries untouched; on success the record is cached under `rsn` and fresh; on failure `rsn` has no entry and one read was made; the invariant is preserved |
| Hiscores.GetPlayerSkill | hiscores.go:103-124 | invariant preserved; other players untouched; an unknown skill gives `InvalidSkill` with no read and no change; reads bounded by the clock readings; an answer is the requested field of the cached record |
| Hiscores.GetPlayerSkillLevel | hiscores.go:103-124 | an answer is the level of the skill in the record cached for `rsn`; an unknown skill is refused without side effects |
| Hiscores.GetPlayerSkillRank | hiscores.go:127-148 | an answer is the rank of the skill in the record cached for `rsn`; an unknown skill is refused without side effects |
| Hiscores.GetPlayerSkillXp | hiscores.go:151-172 | an answer is the xp of the skill in the record cached for `rsn`; an unknown skill is refused without side effects |
| Hiscores.GetSkill | hiscores.go:175-186 | a known name yields its statistics; an unknown non-empty name fails with the accepted-name list (empty names first); "" yields a nil statistic without error whenever the record is non-empty and has no "" key |
| Hiscores.AcceptedNames | hiscores.go:176-179 | the names `GetSkill` accepts: twice as many entries as the record has names, every record name among them, and besides those only "", which is present whenever the record is non-empty |
| Hiscores.GetSkillIntended | hiscores.go:175-186 | succeeds exactly for the record's own names, with their statistics; otherwise fails listing the record's names |
| CacheProperties.GetPlayerFreshHit | hiscores.go:62-65 | a fresh cached record is returned as is, with no read and no state change |
| CacheProperties.GetPlayerRefill | hiscores.go:66-99 | a missing or stale record is dropped, one read is made, and the parsed record stamped with `now` is cached |
| CacheProperties.GetPlayerFetchFails | hiscores.go:66-91 | a failed read or parse is reported and leaves no entry for `rsn` |
| CacheProperties.MalformedRowStoresNothing | hiscores.go:87-91 | a misshapen catalog row makes `GetPlayer` fail with `MalformedRow` and store nothing |
| CacheProperties.EntryLifecycle | hiscores.go:61-99 | after a successful fetch, a later call is a cache hit while the record is younger than the TTL; afterwards it refetches once and either restamps the record or leaves no entry |
| CacheProperties.LookupFreshHit | hiscores.go:108-111 | a lookup served by a fresh record answers from it without a read or state change |
| CacheProperties.LookupRefetch | hiscores.go:112-123 | a lookup without a fresh record fetches once, caches the record, and its self-call answers from that record |
| CacheProperties.LookupFetchFails | hiscores.go:112-121 | a lookup whose fetch fails reports the fetch's own error (the transport failure, or the parse error) after one read, and leaves no entry |
| CacheProperties.LookupTerminates | hiscores.go:103-124 | given two clock readings less than a TTL apart, every lookup finishes after at most one read |
| CacheProperties.ThreeLookupsFetchOnce | hiscores.go:103-172 | for a player without a fresh record whose fetched payload parses, level, rank and xp asked in a row within a TTL cost one read in total and agree with one record |
| CacheProperties.InvalidSkillIgnoresCache | hiscores.go:104-106 | an unknown skill is refused identically whatever the cache holds, with no read and no state change |
| Scenarios.CatalogShape | hiscores.go:44 | the catalog has 24 names, "overall" first and "strength" fourth |
| Scenarios.StrengthListedOnce | hiscores.go:44 | "strength" appears once in the catalog |
| Scenarios.CatalogDistinct | hiscores.go:44 | no skill name is listed twice |
| Scenarios.ShippedRowsByPosition | hiscores.go:87-95 | against the shipped catalog, a successful parse stores under the name at every position what that position's row parses to |
| Scenarios.NoEmptySkillName | hiscores.go:44 | no catalog name is empty |
| Scenarios.StrengthLookup | examples/example.go:9-21 | a fresh service fetching a payload whose fourth row is "1142579,75,1271864" makes one read, and "strength" holds xp 1142579, rank 1271864, level 75 |
| Scenarios.GetSkillAcceptsEmptyName | hiscores.go:176-185 | on a record `GetPlayer` built, `GetSkill("")` returns a nil statistic without error, while the intended check refuses it |
| ParserExamples.ParseTwoRows | hiscores.go:85-95 | "1000,10,500\n2000,20,600" read against two names gives xp from field 0, level from field 1, rank from field 2 |
| ParserExamples.StrengthRow | hiscores.go:88-95 | the row "1142579,75,1271864" parses to xp 1142579, level 75, rank 1271864 |

## Left out

- The HTTP request, the endpoint URL with `{rsn}` substitution, and reading the body are not modelled. The outcome of all three is the `Response` input: a body, or a transport failure carrying a reason.
- The wall clock is not modelled. Each call gets one reading in whole seconds (`now`), which serves both for the freshness test (`time.Since(...).Seconds() < CACHE_TTL`, a float comparison) and for the `updatedAt` stamp. Go takes the stamp after the fetch, so in Go it is slightly later than the reading used for the test.
- Hiscores.GetPlayerSkill: the self-call is bounded by the clock readings supplied to it. A lookup whose readings run out reports `Pending`. Go would simply go on calling itself, and could in principle loop if every fetched record were already stale when re-read.
- Concurrency is not modelled. The Go map is unsynchronised and every call here is sequential.
- A missing payload row (fewer rows than catalog skills) makes Go's `rows[idx]` panic. The model reports it as an explicit `RowOutOfRange` error.
- The exact error message texts (`fmt.Errorf` strings) are not modelled. `InvalidSkill` carries the list of names the message would join, and `Transport` carries an opaque reason.
- The lookups' `-1` return value on error becomes the `Err` side of `Result`.
- The unused `columns` field and the `VERSION` and `HISCORES_ENDPOINT` constants are not modelled. The field lists the columns as rank, level, xp, but the code reads field 0 as xp and field 2 as rank. The model follows the code.
- Strings are sequences of characters rather than bytes. The parser only ever splits on ASCII separators and reads ASCII digits, so the difference does not show.
- Go's map iteration order in `Player.GetSkill` is unspecified. It is an input `order` that must enumerate the record's names.
- The catalog has 24 names, as in the code.
- `examples/example.go` is used only as the source of the "strength" scenario. Its `main` is not modelled.

## Findings

| source | as written | input that shows it | evidently intended | confidence | as-written member | corrected member |
|---|---|---|---|---|---|---|
| hiscores.go:176-181 | `make([]string, len(p.stats))` creates `len(p.stats)` empty strings and `append` adds the names after them, so "" counts as a valid skill name | `GetSkill("")` on any fetched record: it returns a nil `*Stats` and no error | make the slice with length 0 (capacity `len(p.stats)`), so that only the record's own names are accepted | high, not executed | Scenarios.GetSkillAcceptsEmptyName | Hiscores.GetSkillIntended |
