# Frequency-aware cache admission for an NDN forwarding strategy

This project models, in Dafny, the decision core of a custom NDN forwarding
strategy. The strategy caches Data packets in a two-segment LRU cache (SLRU).
It admits a response only when two gates pass. The first gate is a per-name
admission probability θ, which a fog controller sets. The second is a
TinyLFU-style comparison of count-min sketch estimates between the new name
and the cache's eviction victim.

The model has three parts:

- **`Slru`** (`slru.dfy`) models the cache.
  - The `SlruCache` class holds the probation and protected lists as
    `seq<Name>` fields, and the name → (data, list position) store as a `map`.
  - Each position is recorded as the segment it points into.
  - Every method is proved against pure functions on the two lists (`Touch`,
    `Promote`, `Refresh`, `EnforceCap`, `InsertNew`, `AfterInsert`). The lemmas
    about those functions carry the cache invariants:
    - the lists are duplicate-free and disjoint;
    - the store's keys are exactly the listed names;
    - every position points into its own list;
    - protected never exceeds its cap;
    - the total never exceeds the combined capacity.
- **`Sketch`** (`cms.dfy`) models the count-min sketch.
  - The `CountMinSketch` class holds the `array2<u32>` counter table, the
    seed array, and a ghost history of increments.
  - Its invariant is that every counter equals, modulo 2^32, the number of
    increments that landed in it.
  - From that invariant the project proves the usual count-min facts:
    - the estimate never undercounts, absent wrap-around;
    - an increment raises the name's own estimate by exactly one and lowers
      no estimate.
- **`Strategy`** (`strategy.dfy`) models `CustomStrategy`, with
  **`AccessReport`** (`report.dfy`) and **`FogInstruction`** (`theta.dfy`) in
  support:
  - request counting, counted only on a cache miss;
  - routing of `/fog/instruction` Data to the θ decoder;
  - admission: the sketch is always incremented, then the θ gate applies, then
    the strict `<` victim comparison when the cache is full;
  - the periodic access-report flush and its framing;
  - decoding of θ updates, with clamping.

Names are sequences of opaque components (`Names`).

Some collaborators become parameters or stand-ins:

- The hash of a name's URI is an uninterpreted function passed to the sketch.
- The uniform draw is a `real` parameter `u`.
- θ is held in fixed point, in units of 1/10000.
- Wire encodings are abstract token sequences.
- `unordered_map` iteration order is a parameter `order`: a duplicate-free
  listing of the counter map's keys.

The model follows what the code does, including where that differs from what
its names and comments suggest:

- Totals are counted only on a cache miss. A hit returns before the count, at
  fw/custom-strategy.cpp:64-71.
- Only the protected list and the total are capped. Probation has no cap of its
  own, so an insert can leave probation above `capProb` (fw/slru.cpp:35-51).
  The header comment at fw/slru.hpp:13-15 describes eviction only in terms of
  a full cache.
- A θ batch whose pair is unreadable aborts mid-loop. Pairs applied before it
  stay applied (fw/custom-strategy.cpp:217-232).
- The victim comparison is strict `<` (fw/custom-strategy.cpp:129).
- θ below zero cannot arise, because the decoded value is a non-negative
  integer.
- The count-min error is one-sided upward: `EstimateBounds` proves that, below
  2^32 increments, the estimate is at least the number of increments of the
  name. An estimate can exceed the true count, but it is never below it.
- The θ decoder tests the TLV-TYPE of `inst.getContent()` against 0xF3
  (fw/custom-strategy.cpp:207-208). In the model that type is a free input
  (`Content.tlvType`). ndn-cxx is not part of this model. If `getContent()`
  returns the Content element itself, whose type is 0x15, with the θ vector
  nested inside it, then every update is ignored and every name keeps the
  default θ of 0.5. `ContentElementIgnored` states that case. This is an
  observation from reading the code; nothing was executed.

One property concerns the strategy as a whole. `ensureCaps` evicts as soon as
the total *reaches* `capProb + capProt` (`isFull` tests `>=`). An insert into a
cache with room therefore leaves it with room, so the cache never holds more
than `capProb + capProt - 1` names. As a result, the full-cache branch of
`beforeSatisfyInterest`, the victim comparison, is unreachable in the
strategy's own use:

- the constructor yields a cache with room (`Roomy`);
- every cache operation keeps that;
- `BeforeSatisfyInterest` states `old(Roomy()) ==> Roomy()`, and that its
  decision is then neither `AdmittedOverVictim` nor `VictimKept`;
- `SendAccessReport` and `ReceiveFogInstruction` do not touch the cache.

## Model

| member | source | states |
|---|---|---|
| Slru.Without | fw/slru.cpp:22 | erasing a name's position removes exactly that name, keeps a duplicate-free list duplicate-free, shortens it by one when the name was there, and changes nothing otherwise |
| Slru.DropLast | fw/slru.cpp:27-28 | `pop_back` removes exactly the last name of a duplicate-free list |
| Slru.Victim | fw/slru.cpp:69-74 | the victim of a non-empty cache is a cached name |
| Slru.WithoutIsErase | fw/slru.cpp:22 | on a duplicate-free list, removing a name is erasing its one position: the names before it and after it keep their order, so `Last` stays the least recently used name |
| Slru.Promote | fw/slru.cpp:20-32 | the list change of `promoteToProtected`: erase from probation, push to the front of protected, and on overflow move protected's back to the front of probation; its properties are the contract of `PromoteFacts` |
| Slru.Refresh | fw/slru.cpp:110-114 | the list change of a protected hit: erase, then push to the front of protected; its properties are the contract of `RefreshFacts` |
| Slru.Touch | fw/slru.cpp:105-114 | the list change of a hit: promote from probation, else refresh in protected; its properties are the contract of `TouchFacts` |
| Slru.EnforceCap | fw/slru.cpp:35-51 | the list change of `ensureCaps`: at a total of at least the capacity, pop probation's back, else protected's; its properties are the contract of `EnforceCapEvictsVictim` |
| Slru.InsertNew | fw/slru.cpp:89-92 | the list change of inserting a new name: push to the front of probation, then the cap step; its properties are the contract of `InsertNewFacts` |
| Slru.AfterInsert | fw/slru.cpp:79-94 | the list change of `insert`: a cached name is touched, a new one inserted; `InsertedNameStays` and `Insert` state its properties |
| Slru.PromoteFacts | fw/slru.cpp:20-32 | promotion keeps the lists disjoint and duplicate-free, the names and the total unchanged, and protected within its cap; it is the plain move below the cap, the move plus demotion of protected's last name at the cap, and an immediate demotion of the name itself when the protected cap is 0 |
| Slru.RefreshFacts | fw/slru.cpp:110-114 | a protected hit moves the name to the front of protected, keeps its length and the names, and leaves probation untouched |
| Slru.TouchFacts | fw/slru.cpp:105-114 | a hit adds and removes no name, keeps the total and keeps protected within its cap |
| Slru.EnforceCapEvictsVictim | fw/slru.cpp:35-51 | the cap step evicts exactly the name `selectVictim` would return, only once the total reaches the cap, and then lowers the total by one; with probation non-empty protected is untouched |
| Slru.InsertNewFacts | fw/slru.cpp:89-92 | a new name goes to the front of probation; below the cap nothing is evicted; at the cap probation's last name is evicted, or the new name itself when probation was empty; protected is untouched; a total below the cap stays below it |
| Slru.InsertedNameStays | fw/slru.cpp:79-94 | with a probation cap of at least 2, a name is still cached after it is inserted |
| Slru.PromoteTagged | fw/slru.cpp:24-30 | after promotion every stored position points into the list that holds its name, and no data changes |
| Slru.RefreshTagged | fw/slru.cpp:113 | after a protected hit every stored position still points into its own list |
| Slru.EnforceCapTagged | fw/slru.cpp:39-47 | erasing the evicted name from the store keeps store and lists in agreement |
| Slru.PushTagged | fw/slru.cpp:89-91 | pushing a new name to probation and storing it with a probation position keeps store and lists in agreement |
| Slru.SlruCache.StoreSize | fw/slru.hpp:47-49 | a consistent store holds one entry per listed name |
| Slru.SlruCache.constructor | fw/slru.cpp:10-15 | the caps are as given (their sum must be positive), the cache is empty and not full |
| Slru.SlruCache.Contains | fw/slru.cpp:56-59 | a name is contained iff it is on one of the two lists |
| Slru.SlruCache.IsFull | fw/slru.cpp:62-66 | in a valid cache, full iff the store holds exactly `capProb + capProt` names |
| Slru.SlruCache.SelectVictim | fw/slru.cpp:69-74 | the victim is a stored name, or the empty name when nothing is stored |
| Slru.SlruCache.InProbation | fw/slru.cpp:106-107 | the linear search finds the name iff it is on the probation list |
| Slru.SlruCache.PromoteToProtected | fw/slru.cpp:20-32 | the lists become `Promote` of the old lists, the cache stays valid and no data changes |
| Slru.SlruCache.EnsureCaps | fw/slru.cpp:35-51 | the lists become `EnforceCap` of the old lists and the store loses exactly the evicted name |
| Slru.SlruCache.Fetch | fw/slru.cpp:97-117 | a miss returns nothing and changes nothing; a hit returns the stored data and the lists become `Touch` of the old lists; data and total never change |
| Slru.SlruCache.Insert | fw/slru.cpp:78-94 | always succeeds; the lists become `AfterInsert` of the old lists; every stored name keeps its data except the inserted one, which holds the new data, and no name other than the inserted one is added; an existing name evicts nothing; a cache with room keeps room |
| Slru.SlruCache.InsertExisting | fw/slru.cpp:81-87 | an existing name gets the new data and is then touched exactly as by `fetch` |
| Slru.SlruCache.InsertNewName | fw/slru.cpp:89-93 | a new name is pushed to probation and stored, then the cap step runs |
| Sketch.SeedFor | fw/cms.cpp:28-29 | the seed of row `i` is `(i + 1) * PRIME` truncated to 32 bits; `SeedsOfFourRows` gives the values |
| Sketch.SeedsOfFourRows | fw/cms.cpp:10-29 | the four rows of the strategy's sketch get the distinct seeds 0x9E3779B9, 0x3C6EF372, 0xDAA66D2B and 0x78DDE6E4 |
| Sketch.Xor | fw/cms.cpp:16 | bitwise exclusive or of the low `bits` bits; `XorBound` and `XorInvolutive` state its properties |
| Sketch.XorBound | fw/cms.cpp:16 | the exclusive or of `bits`-bit values fits in `bits` bits |
| Sketch.XorInvolutive | fw/cms.cpp:16 | xor-ing a `bits`-bit value twice with the same value gives it back |
| Sketch.Mix | fw/cms.cpp:13-17 | `base ^ seed` over the 64-bit `size_t`; `MixFacts` states its properties |
| Sketch.MixFacts | fw/cms.cpp:13-17 | the mix fits in 64 bits, so it equals the `size_t` value the source computes, and mixing again with the same seed recovers the base hash |
| Sketch.MixInjective | fw/cms.cpp:13-17 | within one row, different base hashes never mix to the same value, so two names share a slot only through `% width` or a hash collision |
| Sketch.SlotOf | fw/cms.cpp:39 | the slot index is below the width |
| Sketch.Bump | fw/cms.cpp:40 | `++` on a 32-bit counter adds one modulo 2^32 |
| Sketch.SeqMin | fw/cms.cpp:50-54 | the running minimum fits in 64 bits and is `UINT64_MAX` over no rows |
| Sketch.SeqMinIsMinimum | fw/cms.cpp:50-54 | the running minimum is at most every element and, over 64-bit values, equal to one of them |
| Sketch.SeqMinShift | fw/cms.cpp:51-54 | raising every element by one raises the minimum by one |
| Sketch.SeqMinMonotone | fw/cms.cpp:51-54 | raising some elements never lowers the minimum |
| Sketch.CounterAfterBump | fw/cms.cpp:40 | a counter that held the hits of a history keeps doing so when it is bumped exactly where the new name lands |
| Sketch.HitsCoverOccurrences | fw/cms.cpp:38-41 | a name's own slot has at least as many hits as the name has occurrences |
| Sketch.CountMinSketch.RowSlot | fw/cms.cpp:39 | the slot of a name in a row is below the width |
| Sketch.CountMinSketch.constructor | fw/cms.cpp:22-30 | a `d×w` all-zero table, `seed[i] = (i+1)·0x9E3779B9 mod 2^32`, and an empty history |
| Sketch.CountMinSketch.BumpSlots | fw/cms.cpp:38-41 | exactly the name's slot in each row goes up by one modulo 2^32, and every other counter is unchanged |
| Sketch.CountMinSketch.BumpCounter | fw/cms.cpp:40 | `++` changes one counter and no other |
| Sketch.CountMinSketch.Increment | fw/cms.cpp:32-42 | the same per-counter change; the invariant holds for the history with the name appended; absent wrap-around the name's estimate rises by one and no estimate falls |
| Sketch.CountMinSketch.BumpKeepsValid | fw/cms.cpp:38-41 | bumping the name's slots keeps every counter equal to its hit count modulo 2^32 |
| Sketch.CountMinSketch.EstimatesUnchanged | fw/cms.cpp:45 | estimates depend on the table and seeds alone |
| Sketch.CountMinSketch.BumpRaisesEstimates | fw/cms.cpp:38-41 | without wrap-around, the name's estimate rises by exactly one and no name's estimate falls |
| Sketch.CountMinSketch.Estimate | fw/cms.cpp:44-56 | the loop returns the minimum of the name's slots over the rows |
| Sketch.CountMinSketch.EstimateBounds | fw/cms.cpp:50-55 | the estimate is `UINT64_MAX` with no rows, otherwise at most every probed counter and equal to one of them; with fewer than 2^32 increments it is at least the name's number of increments |
| AccessReport.Counted | fw/custom-strategy.cpp:74 | counting adds the name to the keys and keeps `last ≤ total` |
| AccessReport.CountedFacts | fw/custom-strategy.cpp:74 | the name's total rises by one (from 0 when new), its `last` stays, and no other entry changes |
| AccessReport.Records | fw/custom-strategy.cpp:155-169 | the records the loop produces, in visit order; `RecordsExactly` and `RecordsNamesDistinct` state its properties |
| AccessReport.RecordTokens | fw/custom-strategy.cpp:166-168 | one record as it reads in the buffer: name, `0xF0`, delta; `DecodeEncode` reads it back |
| AccessReport.Frame | fw/custom-strategy.cpp:175-176 | the report framing: `0xF1`, the body length, the body; `ReportRoundTrip` reads it back |
| AccessReport.RecordsExactly | fw/custom-strategy.cpp:155-169 | a record is produced iff the name is visited, has a nonzero delta, and the record carries that delta |
| AccessReport.RecordsNamesDistinct | fw/custom-strategy.cpp:155-169 | no name gets two records in one flush |
| AccessReport.Drained | fw/custom-strategy.cpp:164 | a flush keeps the keys and keeps `last ≤ total` |
| AccessReport.DrainedFacts | fw/custom-strategy.cpp:158-164 | a flush keeps every total and changes an entry iff it had a nonzero delta |
| AccessReport.Flush | fw/custom-strategy.cpp:155-169 | the loop drains every counter, its buffer is the records prepended in visit order, and its count is the number of records |
| AccessReport.FlushEntry | fw/custom-strategy.cpp:156-168 | one loop pass takes the partial drain, buffer and count from the first `i` names to the first `i+1` |
| AccessReport.DrainedReportsNothing | fw/custom-strategy.cpp:158-161 | a flush right after a flush produces no record |
| AccessReport.SecondFlushReportsOnlyMovedName | fw/custom-strategy.cpp:155-169 | totals 5,5,5 yield three records; after two more requests for the middle name the next flush yields that name alone with delta 2 |
| AccessReport.ExampleRecords | fw/custom-strategy.cpp:155-169 | three visited names give their records in visit order |
| AccessReport.PrependedIsReversed | fw/custom-strategy.cpp:166-168 | building the buffer by prepending lays the records out in reverse visit order |
| AccessReport.DecodeEncode | fw/custom-strategy.cpp:166-168 | the records laid out one after the other read back as exactly those records |
| AccessReport.ReportRoundTrip | fw/custom-strategy.cpp:166-176 | decoding a framed report recovers exactly the records, in reverse visit order |
| FogInstruction.Clamp | fw/custom-strategy.cpp:227-228 | the stored θ is `fixed/10000` clamped to at most 1 |
| FogInstruction.ClampExamples | fw/custom-strategy.cpp:227 | 15000 reads as 1 and 7342 as 0.7342 |
| FogInstruction.ApplyPairs | fw/custom-strategy.cpp:217-232 | the loop never reports "ignored" and never removes a θ entry |
| FogInstruction.Decode | fw/custom-strategy.cpp:207-211 | an update is ignored iff it is not a wire-encoded θ vector, and then the table is unchanged |
| FogInstruction.ContentElementIgnored | fw/custom-strategy.cpp:207-211 | a content block of TLV-TYPE 0x15 is ignored whatever it holds, and the θ table is unchanged |
| FogInstruction.ApplyPairsLastWins | fw/custom-strategy.cpp:217-232 | after decoding, a name holds the clamped θ of the last readable pair naming it, else its old θ; decoding aborts iff some pair cannot be read |
| FogInstruction.LastForCons | fw/custom-strategy.cpp:230 | a later pair for a name overrides an earlier one |
| Strategy.IsFogInstruction | fw/custom-strategy.cpp:97-98 | a name is a θ update when its first two components are `fog` and `instruction` |
| Strategy.ThetaFor | fw/custom-strategy.cpp:108-110 | the θ in force: the table entry, else the default 0.5 |
| Strategy.Drawn | fw/custom-strategy.cpp:112 | the draw passes the gate when it is below θ |
| Strategy.CustomStrategy.constructor | fw/custom-strategy.cpp:40-50 | a 4×2048 sketch, a 50+50 cache with room, no counts, no θ entries, first report scheduled |
| Strategy.CustomStrategy.AfterReceiveInterest | fw/custom-strategy.cpp:56-84 | a cached name is served with its data and touched, and not counted; any other name has its total raised by one and the cache is unchanged; room is kept |
| Strategy.CustomStrategy.BeforeSatisfyInterest | fw/custom-strategy.cpp:89-137 | `/fog/instruction` Data only updates θ; any other Data is counted in the sketch; it is not drawn iff `u ≥ θ`; it is cached with room iff drawn and the cache had room; it is cached over the victim iff drawn, full and the victim's estimate is strictly lower; an admitted name leaves every other cached name with its data and adds no other name; otherwise the cache is unchanged; with room before, there is room after and the full branch is not taken |
| Strategy.CustomStrategy.Admit | fw/custom-strategy.cpp:103-134 | the sketch counts the name first, then the θ gate and the placement decide as above; admitting leaves every other cached name with its data |
| Strategy.CustomStrategy.Count | fw/custom-strategy.cpp:104 | the sketch history gains the name and the cache is untouched |
| Strategy.CustomStrategy.Place | fw/custom-strategy.cpp:113-133 | with room the name is cached; when full it is cached iff the victim's estimate is strictly below its own; admitting leaves every other cached name with its data |
| Strategy.CustomStrategy.Contest | fw/custom-strategy.cpp:120-133 | in a full cache the name replaces the victim iff `estimate(victim) < estimate(name)`, every other cached name keeping its data, else nothing changes |
| Strategy.CustomStrategy.Cache | fw/custom-strategy.cpp:117 | the insert leaves the name cached with its data, every other cached name with its data, the lists as `AfterInsert` gives, and every estimate as it was |
| Strategy.CustomStrategy.SendAccessReport | fw/custom-strategy.cpp:149-201 | no records means no payload; otherwise the payload is `0xF1, length, records` with records prepended; every counter is drained and one more report is scheduled either way |
| Strategy.CustomStrategy.ReceiveFogInstruction | fw/custom-strategy.cpp:203-233 | the θ table and the outcome are those `Decode` gives |

## Left out

- Face-table iteration, signing, the `/fog/access-report` Data, `sendData`,
  forwarding through the best-route base class, and PIT handling are foreign
  calls. `SendAccessReport` returns the payload it would send.
- `Simulator::Schedule` timers are represented by the `reportsScheduled`
  counter alone. The 10-second interval is a constant and not modelled in time.
- Byte-level TLV and VAR-NUMBER encoding from ndn-cxx is abstract:
  - a name's wire encoding is one token;
  - the length field counts body tokens, not bytes;
  - the outer and inner `Block::parse` are taken as already done, so the
    content is given as elements and fields.
- `readNonNegativeInteger` accepting any block holding 1, 2, 4 or 8 bytes is
  modelled as a `NumberField`.
- FogInstruction.ParsePair: a pair with fewer than two nested elements is
  undefined behaviour in the source, because it dereferences the end iterator.
  The model treats it as unreadable. The exception an unreadable pair throws
  out of `beforeSatisfyInterest` is modelled as the outcome `Aborted`.
- `double` arithmetic is replaced by fixed point. The θ gate compares the draw
  exactly with `fixed/10000`, so rounding of the division is not modelled.
- `std::hash` of the URI is an uninterpreted parameter. `std::mt19937_64` and
  `uniform_real_distribution` are replaced by the parameter `u`.
- AccessReport.Counted: `uint64_t` totals are unbounded naturals, so their
  wrap-around after 2^64 requests is not modelled.
- Sketch.CountMinSketch.Increment: the estimate facts are stated only absent
  wrap-around. The per-counter bump is stated with wrap-around.
- `fw/cache-stats.hpp`, `NFD_LOG_*` logging and the unused `m_thetaForward`
  are not modelled, because no modelled code reads them.
- Sketch.CountMinSketch.constructor: the constructor requires a nonzero width
  whenever the depth is nonzero. The source accepts a width of 0, but then
  `% m_width` in `increment` and `estimate` is undefined behaviour.
- `scratch/*` simulation scenarios are not part of this model.
