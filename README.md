# Send-chain schedule generator

This project models the schedule generator of a small classroom app.

- Every week, each student "sends" to another student.
- A schedule holds one chain per student. The first event goes from that student to somebody. Each later event goes from the previous recipient to a new student, one event per week.
- Chains are built greedily, first fit:
  - the student chosen is the first one, in a randomly drawn visiting order, that the current sender has never sent to;
  - a pairing history records every pair `a -> b` already used, and it is threaded from each chain into the next.
- A best-of-N search repeats the generation up to `MAX_TRIES` (2000) times. It keeps the first schedule with the fewest unfilled week slots, and it stops as soon as one schedule fills every slot.

The model has four modules:

- `Pairing` (`pairing.dfy`): students, send events and the history. The history is a map from a sender id to the set of ids that sender has sent to. It also models `_.find` and `_.reject` over the roster.
- `Chains` (`chain.dfy`): the recursive chain builder `buildChain` as the function `BuildChain`, plus lemmas on its result: linkage, distinct recipients, no self-send, exact history update.
- `Schedules` (`schedule.dfy`): `genSequences`.
  - The method `GenSequences` has the source's loop, which threads the history.
  - It is proved equal to the specification function `Schedule`, which is built pass by pass by `GenPrefix`/`NextPass`.
  - It is proved to produce a well-formed schedule: one chain per student in roster order, every chain well formed, no pair `a -> b` twice anywhere.
- `Search` (`search.dfy`): `getNMissing` as `NMissing`, and the search loop of `handleSearchClick` as the method `Search`.
  - `Search` is specified by the running best `RunningBest` over the missing counts of the tries made (`Counts`).
  - It is also specified by the index of the kept try, `KeptIndex`.

Randomness is passed in as arguments; everything else is deterministic.

- `genSequences` receives `orders`: for each student, the permutation of the other students that `_.sampleSize(others, others.length)` returned (`Drawn`).
- `Search` receives `draws`: one such vector of orders per try.

## Model

| member | source | states |
|---|---|---|
| Pairing.Record | src/App.tsx:103-109 | The copied history marks exactly what the old one marked plus `a -> b`, with the same sender keys; no existing mark is lost |
| Pairing.Reject | src/App.tsx:63 | `_.reject(students, ["id", id])` keeps exactly the students whose id differs from `id`; it is no longer than the input, and strictly shorter when some student has that id |
| Pairing.FindUnsent | src/App.tsx:92 | `_.find` finds nothing exactly when `start` has sent to every todo; otherwise it returns the first todo in the given order that `start` has not sent to |
| Chains.BuildChain | src/App.tsx:80-115 | The history keeps its sender keys, and the chain is no longer than the todos and no longer than the remaining weeks |
| Chains.BuildChainFirstStep | src/App.tsx:86-98 | The chain is empty exactly when there are no todos, no weeks or every todo is already marked, and the history is then returned unchanged; otherwise the first event goes from `start` to the first unmarked todo |
| Chains.BuildChainLinked | src/App.tsx:100-112 | The first event leaves from `start` and every later event from the previous event's recipient |
| Chains.BuildChainRecipients | src/App.tsx:100-112 | Every recipient is one of the original todos and no two recipients share an id |
| Chains.BuildChainNoSelfSend | src/App.tsx:100-112 | When `start` is not among the todos, no event sends to its own sender |
| Chains.BuildChainHistory | src/App.tsx:103-112 | The returned history marks exactly the input marks plus the pairs of the chain, and none of those pairs was marked before |
| Schedules.EmptyHistory | src/App.tsx:58-61 | The starting history has an entry for every roster id and marks nothing |
| Schedules.DrawnOrder | src/App.tsx:63-66 | A drawn visiting order holds only roster students other than the start student, and fewer than the roster size |
| Schedules.NextPass | src/App.tsx:62-71 | One more student's chain: one more chain, and the history keeps the roster's ids as keys |
| Schedules.GenPrefix | src/App.tsx:57-72 | After `n` students there are exactly `n` chains and the history has exactly the roster's ids as keys |
| Schedules.GenPrefixChains | src/App.tsx:62-72 | Chain `i` starts at `students[i]`, is linked, has distinct recipients from the roster, no self-send, and at most as many events as weeks and fewer than students |
| Schedules.GenPrefixHistory | src/App.tsx:67-70 | The threaded history marks exactly the pairs sent by the chains built so far |
| Schedules.GenPrefixNoRepeat | src/App.tsx:57-72 | No pair `a -> b` appears twice anywhere among the chains built so far, and the history records exactly their pairs |
| Schedules.NextPassChains | src/App.tsx:62-71 | Building the next student's chain keeps every chain well formed |
| Schedules.NextPassThreaded | src/App.tsx:62-71 | Building the next student's chain from the threaded history repeats no earlier pair and keeps the history exact |
| Schedules.ScheduleWellFormed | src/App.tsx:57-73 | The whole schedule has one well-formed chain per student and repeats no pair |
| Schedules.GenSequences | src/App.tsx:57-73 | The loop returns `Schedule` of its inputs, a well-formed schedule with one chain per student in roster order and no repeated pair |
| Search.NMissingBounds | src/App.tsx:173-179 | When no chain is longer than `nWeeks`, `getNMissing` lies between 0 and `nWeeks` per chain and is 0 exactly when every chain has `nWeeks` events |
| Search.Weeks | src/App.tsx:160 | `_.range(1, nWeeks + 1)` has `nWeeks` entries |
| Search.MissingAtBounds | src/App.tsx:160-161 | Every generated candidate misses between 0 and `nWeeks * |students|` slots |
| Search.Sentinel | src/App.tsx:157 | The initial `bestNMissing` is positive and exceeds every count a roster of `nStudents` students can produce |
| Search.Counts | src/App.tsx:159-166 | The recorded counts hold one entry per try made |
| Search.CountsAt | src/App.tsx:160-161 | Count `k` is the missing count of the schedule generated on try `k` |
| Search.KeptIndex | src/App.tsx:162-165 | The kept try, if any, is one of the tries made |
| Search.RunningBestBounds | src/App.tsx:157-165 | The best count is at most the sentinel and at most every try's count, and non-negative when they are |
| Search.RunningBestMonotone | src/App.tsx:162-165 | `bestNMissing` never increases as tries are added |
| Search.KeptIndexFirstBest | src/App.tsx:162-165 | The kept schedule is the first try reaching the best count, every earlier try counting strictly more; with nothing kept the best is still the sentinel |
| Search.SentinelKeepsFirst | src/App.tsx:157-164 | A first count below the sentinel means some schedule is kept |
| Search.RunningBestSnoc | src/App.tsx:162-165 | One more try replaces best and kept schedule exactly when its count is strictly lower |
| Search.SearchExit | src/App.tsx:159 | At loop exit at least one try was made, an early exit means a perfect schedule, every try before the last missed some slot, and a schedule is kept when the roster has `nStudents` students |
| Search.CountsBounds | src/App.tsx:160-161 | Every recorded count lies between 0 and `nWeeks * |students|` |
| Search.Try | src/App.tsx:160-161 | One try returns the candidate schedule of that try and its missing count |
| Search.Search | src/App.tsx:154-171 | At most `MAX_TRIES` tries and at least one; an early stop only at 0 and only right after the first perfect schedule; the result is the running best over the tries and the first schedule achieving it; a schedule is always kept when the roster has `nStudents` students |

## Left out

- Rendering and React state are presentation, not pairing logic: `renderSequences`, `renderSequence` (src/App.tsx:31-56), and the `App` component's hooks, input handlers, `handleNameChange` and JSX (src/App.tsx:117-253).
- src/StudentNames.tsx is not part of this model; it is a form component.
- Random name generation (`uniqueNamesGenerator`, src/App.tsx:193-198) is a foreign library call and is left out. Student names play no part in pairing.
- The randomness of `_.sampleSize` is not modelled. Its results are inputs (`orders`, `draws`), constrained only to be permutations of the other students.
- `console.log` output (src/App.tsx:94, 168) is left out.
- `setSequences(bestChains)` is replaced by returning `bestChains`. An undefined `bestChains` is `None`.
- Handlers under the `if (students)` guard are not modelled for a missing roster: they then do nothing.
- `handleRegenclick` is not modelled separately; it is one call of `GenSequences`.
- The history stores sets of ids instead of records of booleans. The source only ever writes `true`, so a truthy entry is exactly set membership.
- Chains.BuildChain requires the start id and every todo id to be keys of the history. For a missing sender key the source would throw a TypeError. `genSequences` always meets this requirement, which `DrawnOrder` and `GenPrefix` establish.
- `nWeeks` and `nStudents` are natural numbers. Negative values typed into the inputs are not modelled; there `_.range(1, nWeeks + 1)` would count downwards.
- `nStudents` is kept apart from the roster length because the two pieces of React state can disagree. A kept schedule is guaranteed only when they agree.
- JavaScript numbers are modelled as unbounded integers. `nWeeks * nStudents + 1` is exact at the sizes the inputs allow.
- Pairing.Reject: states which students are kept and the length, not that they keep their roster order; nothing else in the model depends on that order.
- Duplicate student ids are not excluded. `fromPairs` would then merge their history entries, as the map does here.
- No per-round submission cap is modelled; the source has none.
