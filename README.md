# Set: the dealer and the players

A model of the game state of a multi-threaded Set card game. Three cards on the table form
a *set* when, for each feature, they are all alike or all different. A `Dealer` owns the
deck and the table. Each `Player` presses keys that place or lift tokens on table slots.
A player whose third token goes down queues a *claim*. The dealer takes claims one at a
time:
- a legal claim earns a point and a point freeze, removes its three cards, refills the gaps
  from the deck and restarts the turn timer;
- an illegal claim earns a penalty freeze;
- a claim one of whose cards left the table meanwhile is dropped.

When the turn timer runs out, every card goes back to the deck and a new round is dealt.
When no set is left, the players with the highest score win.

Each `synchronized` block of a player is one atomic method here. Three dealer operations
span several `synchronized` blocks and some unlocked code, and each of them is also taken as
one atomic step: the resolution of a claim in `timerLoop` (`Dealer.java:111-150`),
`removeCardsFromTable` (`Dealer.java:175-200`) and `removeAllCardsFromTable`
(`Dealer.java:249-279`). No player step comes between their parts. Four modules hold the
value logic the classes are specified by:
- `Layout`: the table as a sequence of slots, dealing and conservation of cards;
- `Selections`: a player's tokens as three columns (card, slot), and what a key press does
  to them;
- `Freeze` and `Scores`: the freeze countdown and the winners.

`Game` holds the classes `Table`, `Player` and `Dealer`, with the fields the game updates in
place. A player's `setArray` is an `array2<int>`. The table's `slotToCard` is an
`array<int>`, and the dealer's `setToRemove` is an `array<int>`. The deck, the claim queue
and the pending key presses are sequences.

The dealer keeps two invariants:
- `Consistent`: every card id `0 .. deckSize-1` is in exactly one of the deck, the table and
  the cards removed by legal claims, and every player's token columns are well formed,
  counted by `usedTokens`, and name cards still lying on the slots recorded with them;
- `Valid`: `Consistent`, and each player is in the claim queue at most once, and exactly
  while its `checkingSet` flag is up.

Every state-changing method of a round keeps `Valid`, or `Consistent` where a claim is being
resolved. `AddSetToQueue` only appends to the queue. It keeps `Valid` only together with the
raising of `checkingSet` in `Player.Submit`, and `Submit` is its one caller.
The contracts above are stated through specification functions. They carry no `ensures` of
their own; the lemmas in the table below state their properties:
- `Selections.Act` (`Player.java:184-213`) is what a press does to the three columns, and
  `Selections.Submits` (`Player.java:214-217`) says when it queues a claim (`ActRemoves`,
  `ActPlaces`, `ActIgnores`, `ToggleTwice`);
- `Selections.Stale` (`Dealer.java:121-126`) says a claimed slot was emptied, and
  `Selections.ClearSlots` (`Dealer.java:178-191`) lifts every token on removed slots
  (`ClearSlotsKeepsShape`, `ClearOwnClaim`, `ClearSlotsMatches`);
- `Layout.RemoveSlots` (`Dealer.java:193-198`) empties the claimed slots, and
  `Layout.DealStep`, `Layout.DealFrom` and `Layout.Deal` (`Dealer.java:205-212`) deal the gaps,
  one slot at a time (`DealMovesCards`, `DealFills`);
- `Freeze.Countdown` and `Freeze.Reports` (`Player.java:263-288`) are the freeze display's
  values (`CountdownShape`, `ReportsShape`);
- `Scores.Winners` (`Dealer.java:285-301`) are the ids holding the best score
  (`WinnersAreLeaders`);
- `Game.Dealer.Snap` and `Game.Dealer.Resolved` (`Dealer.java:111-151`) are the part of the
  dealer's state a claim may change, before and after each verdict (`Judge`, `Settle`,
  `ResolveClaim`, `TimerLoopStep`);
- `Game.Dealer.ShouldFinish` (`Dealer.java:168-170`) is the round loop's condition, on
  `terminate` and the deck.

## Model

| member | source | states |
|---|---|---|
| Layout.Range | set/ex/Dealer.java:55 | the initial deck has n cards; the property it is used for is stated by RangeOnce |
| Layout.RangeOnce | set/ex/Dealer.java:55 | each card id 0 .. n-1 occurs exactly once in the initial deck, and no other value occurs |
| Layout.OnTableUpdate | set/ex/Dealer.java:210 | putting card c on a slot exchanges the slot's old card for c in the multiset of cards on the table |
| Layout.OnTableCounts | set/ex/Dealer.java:208 | occupied slots plus empty slots make up the table; no card on the table is the empty marker |
| Layout.ClearedHoldsNothing | set/ex/Dealer.java:271-276 | a table whose every slot is -1 holds no card |
| Layout.CardsAccountedFor | set/ex/Dealer.java:55 | when deck, table and removed cards together are the ids 0 .. n-1 once each, no card lies on two slots and every card is a valid id |
| Layout.DiscardSlot | set/ex/Dealer.java:193-198 | emptying a slot whose card joins the removed cards keeps every card accounted for exactly once |
| Layout.ReturnSlot | set/ex/Dealer.java:272-275 | emptying a slot whose card is appended to the deck keeps every card accounted for exactly once |
| Layout.Pick | set/ex/Dealer.java:209 | the index drawn from a random number in [0, 1) scaled by the deck size lies inside the deck |
| Layout.TakeCard | set/ex/Dealer.java:209-210 | moving the drawn card into an empty slot keeps deck plus table the same multiset and adds one card to the table |
| Layout.DealMovesCards | set/ex/Dealer.java:205-212 | dealing keeps deck plus table the same multiset; the deck shrinks by as many cards as the table gains |
| Layout.DealFills | set/ex/Dealer.java:207-212 | dealing only fills empty slots; either every slot ends up filled or the deck runs out; an empty deck changes nothing |
| Layout.DealCount | set/ex/Dealer.java:205-212 | dealing draws one card per empty slot, or the whole deck when it has fewer cards than there are gaps, and leaves only the gaps the deck could not fill |
| Selections.IndexOf | set/ex/Player.java:186-187 | the first column recording the slot, or 3 when no column does |
| Selections.FreeIndex | set/ex/Player.java:204-205 | the first column with no card, or 3 when every column has one |
| Selections.FreeColumnExists | set/ex/Player.java:198-205 | with fewer than three tokens down, the search for a free column finds one |
| Selections.RecordedAt | set/ex/Player.java:186-187 | a slot has a token exactly when the search for its column succeeds |
| Selections.ActRemoves | set/ex/Player.java:186-197 | pressing a slot that holds a token lifts it: the slot leaves the selection, the count drops by one, and no claim follows |
| Selections.ActPlaces | set/ex/Player.java:198-217 | pressing a free slot with fewer than three tokens puts the card and slot in the first free column, the count rises by one, and a claim follows exactly when it was the third |
| Selections.ActIgnores | set/ex/Player.java:184-198 | pressing an empty slot, or a new slot with three tokens down, changes nothing and queues no claim |
| Selections.ToggleTwice | set/ex/Player.java:184-213 | pressing the same slot twice, on a slot that holds a card, leaves the set of marked slots as it was, whether the first press lifted, placed or ignored a token |
| Selections.ClearSlotsKeepsShape | set/ex/Dealer.java:178-191 | lifting every token on the removed slots keeps the columns well formed and unmarks exactly those slots |
| Selections.ClearOwnClaim | set/ex/Dealer.java:178-191 | after a legal claim's own slots are removed, its claimant has no token left |
| Selections.ActMatches | set/ex/Player.java:203-208 | a press records the card that lies on the pressed slot, so every recorded card is still on its slot |
| Selections.ClearSlotsMatches | set/ex/Dealer.java:182-186 | lifting tokens keeps every remaining recorded card on its slot |
| Selections.MatchesElsewhere | set/ex/Dealer.java:207-211 | changing slots no token marks keeps every recorded card on its slot |
| Selections.EmptySlotUnrecorded | set/ex/Dealer.java:208 | no token marks an empty slot |
| Selections.ClaimInRange | set/ex/Dealer.java:119-126 | a claim with no emptied slot names slots of the table, each holding the card claimed with it |
| Freeze.CountdownShape | set/ex/Player.java:266-285 | the freeze loop sleeps ceil(time / 1000) times and reports remaining times from below `time` down to 0 |
| Freeze.ReportsShape | set/ex/Player.java:263-288 | the frozen player's display starts at the freeze time, ends at 0, and each report is a second less than the one before, or 0 |
| Scores.Best | set/ex/Dealer.java:287-292 | the highest score, or -1 with no players: at least every score and equal to one of them |
| Scores.Holding | set/ex/Dealer.java:293-297 | the ids, in increasing order, of exactly the players whose score equals the maximum |
| Scores.WinnersAreLeaders | set/ex/Dealer.java:285-301 | with non-negative scores, a player is announced exactly when no one has more points; ids are increasing; some player wins when there are players |
| Game.Player.constructor | set/ex/Player.java:75-93 | a new player has no token down, no press pending, no claim, no freeze and score 0, and cell [2,0] holds its id |
| Game.Player.RowsAreSel | set/ex/Player.java:82-83 | rows 0 and 1 of setArray are the card and slot rows of the player's selection |
| Game.Player.KeyPressed | set/ex/Player.java:173-181 | a press is queued exactly when fewer than three are pending, the player is not frozen, the slot holds a card, the cards are out and no claim is pending |
| Game.Player.ActionFromQueue | set/ex/Player.java:183-222 | the selection changes as the press prescribes; checkingSet rises and the player joins the claim queue exactly when the third token goes down |
| Game.Player.Submit | set/ex/Player.java:214-217 | checkingSet rises and the player's id is appended to the dealer's queue |
| Game.Player.Press | set/ex/Player.java:183-214 | the selection changes as the press prescribes; the result says whether the third token went down (a verification-cost split of ActionFromQueue) |
| Game.Player.RecordPress | set/ex/Player.java:184-214 | the setArray rows and usedTokens change as the press prescribes, and every recorded card stays on its slot |
| Game.Player.TakeBack | set/ex/Player.java:185-197 | the first column recording the slot is cleared and usedTokens drops by one; with no such column nothing changes |
| Game.Player.PlaceToken | set/ex/Player.java:199-213 | the card and slot go into the first free column and usedTokens rises by one; with no free column nothing changes |
| Game.Player.ProcessNextAction | set/ex/Player.java:117-120 | the oldest press is taken and acted on exactly when one is pending, the player is not frozen, the cards are out and no claim is pending; otherwise nothing changes |
| Game.Player.ActOnNextPress | set/ex/Player.java:117-118 | the oldest press leaves the queue and is acted on (a verification-cost split of ProcessNextAction) |
| Game.Player.NextPress | set/ex/Player.java:118 | the oldest pending press leaves the queue and is a slot of the table |
| Game.Player.Point | set/ex/Player.java:230-239 | the score rises by one and the player is frozen for the point freeze time |
| Game.Player.Penalty | set/ex/Player.java:244-250 | the player is frozen for the penalty freeze time |
| Game.Player.Penalize | set/ex/Player.java:263-288 | the display shows the countdown of the freeze, and the freeze ends at 0 |
| Game.Player.ReleaseSlot | set/ex/Dealer.java:180-190 | every token of the player on the slot is lifted and the selection stays consistent |
| Game.Player.ReleaseColumn | set/ex/Dealer.java:182-187 | one column is cleared and usedTokens follows |
| Game.Player.ClearSelection | set/ex/Dealer.java:258-268 | the player has no token down, no press pending and no claim |
| Game.Dealer.constructor | set/ex/Dealer.java:51-63 | the deck is 0 .. deckSize-1 in order, no claim is queued, the cards are not out, setToRemove is three -1 and the invariant holds |
| Game.Dealer.NoSlots | set/ex/Dealer.java:58-61 | a new setToRemove buffer holding three -1 |
| Game.Dealer.WiredByConstruction | set/ex/Dealer.java:51-54 | players indexed by id, sharing the table and each owning its setArray, wire the dealer for good |
| Game.Dealer.AddSetToQueue | set/ex/Dealer.java:304-318 | a non-null claim is appended to the queue; a null one changes nothing |
| Game.Dealer.UpdateTimerDisplay | set/ex/Dealer.java:236-244 | a reset restarts the countdown at now plus the turn timeout; the time left is shown, and shown again as a warning when it is at most the warning time |
| Game.Dealer.PlaceCardsOnTable | set/ex/Dealer.java:205-217 | the table and deck become the result of dealing the given draws, the cards are out and every card stays accounted for |
| Game.Dealer.DealSlot | set/ex/Dealer.java:208-211 | one pass of the dealing loop: an empty slot takes the drawn card while the deck lasts (a verification-cost split of PlaceCardsOnTable) |
| Game.Dealer.DrawInto | set/ex/Dealer.java:209-210 | the card at the drawn index leaves the deck and lands on the empty slot |
| Game.Dealer.CurrentAfterSlot | set/ex/Dealer.java:207-212 | changing a slot that is empty or that no player marks keeps every player's selection consistent |
| Game.Dealer.StartRound | set/ex/Dealer.java:83-84 | the table is dealt and the turn timer runs until now plus the turn timeout |
| Game.Dealer.RemoveCardsFromTable | set/ex/Dealer.java:175-200 | the three claimed slots are emptied, every player's tokens on them are lifted, the deck is unchanged and the cards are not out |
| Game.Dealer.RemoveEach | set/ex/Dealer.java:178-199 | all three slots of setToRemove have been released and emptied |
| Game.Dealer.NothingRemovedYet | set/ex/Dealer.java:175-178 | before the loop no slot has been dealt with |
| Game.Dealer.AllRemoved | set/ex/Dealer.java:178-199 | after three passes the table and selections are the originals with the claimed slots removed |
| Game.Dealer.RemoveNext | set/ex/Dealer.java:179-198 | one pass of the outer loop deals with one more slot of setToRemove |
| Game.Dealer.RemovedStep | set/ex/Dealer.java:179-198 | releasing and emptying slot i extends the work done to the first i + 1 slots |
| Game.Dealer.ReleaseAll | set/ex/Dealer.java:179-191 | every player's tokens on the slot are lifted |
| Game.Dealer.ReleaseNext | set/ex/Dealer.java:180-190 | one more player's tokens on the slot are lifted (a verification-cost split of ReleaseAll) |
| Game.Dealer.ReleaseOne | set/ex/Dealer.java:180-190 | the given player's tokens on the slot are lifted (a verification-cost split of ReleaseNext) |
| Game.Dealer.RemoveCard | set/ex/Dealer.java:193-198 | the slot is emptied and its card joins the removed cards |
| Game.Dealer.ReturnCard | set/ex/Dealer.java:272-275 | the slot is emptied and its card is appended to the deck |
| Game.Dealer.RemoveAllCardsFromTable | set/ex/Dealer.java:249-279 | the queue is emptied, every player starts afresh, the table is cleared and its cards are appended to the deck in slot order |
| Game.Dealer.ClearPlayers | set/ex/Dealer.java:257-269 | every player has no token down, no press pending and no claim |
| Game.Dealer.ClearOne | set/ex/Dealer.java:258-268 | the given player has no token down, no press pending and no claim (a verification-cost split of ClearPlayers) |
| Game.Dealer.ReturnAllCards | set/ex/Dealer.java:271-276 | the table is cleared and its cards are appended to the deck in slot order |
| Game.Dealer.ReturnNext | set/ex/Dealer.java:272-275 | one more slot has been returned to the deck (a verification-cost split of ReturnAllCards) |
| Game.Dealer.EndRound | set/ex/Dealer.java:86-87 | the table is cleared, its cards are back in the deck, and the deck with the removed cards is the whole deck again; every player starts afresh and the turn timer is left as it was |
| Game.Dealer.TimerLoopStep | set/ex/Dealer.java:106-151 | the round ends exactly when terminate is set or the time is up, and then nothing changes; with no claim queued nothing changes either; otherwise the oldest claim leaves the queue and gets the same verdict and the same effects on table, deck, selections, score, freeze, setToRemove and timer as in ResolveClaim; no other player's score, freeze, presses or checkingSet can change |
| Game.Dealer.Tick | set/ex/Dealer.java:229 | refreshing the display leaves the countdown unchanged (a verification-cost split of TimerLoopStep) |
| Game.Dealer.ResolveClaim | set/ex/Dealer.java:111-151 | the oldest claim leaves the queue. A claim with an emptied slot is dropped and nothing else changes. A legal one earns a point and the point freeze; setToRemove becomes its slots, every player's tokens on them are lifted, the gaps are dealt from the deck, the cards are out and the timer restarts. An illegal one earns the penalty freeze and nothing else changes. The claimant's presses are discarded and it may claim again |
| Game.Dealer.Judge | set/ex/Dealer.java:119-145 | the verdict is dropped when a claimed slot is -1, awarded when the cards form a set and penalized otherwise; each verdict's whole effect on table, deck, every player's selection, score, freeze, cards-out flag, setToRemove and timer is stated |
| Game.Dealer.Settle | set/ex/Dealer.java:119-150 | the claim is judged with the same verdict and effects as in Judge, then the claimant's checkingSet drops and the queue invariant holds again |
| Game.Dealer.TakeClaim | set/ex/Dealer.java:112-118 | the claim read is the claimant's card and slot rows, and it leaves the queue |
| Game.Dealer.AllOnTable | set/ex/Dealer.java:121-126 | the claim is still on the table exactly when none of its slots is -1 |
| Game.Dealer.Dequeue | set/ex/Dealer.java:116-118 | the oldest claim leaves the queue |
| Game.Dealer.Release | set/ex/Dealer.java:146-150 | the claimant's checkingSet drops, which restores the queue invariant; nothing a claim's resolution changes, nor the claimant's presses, is touched |
| Game.Dealer.DropPresses | set/ex/Dealer.java:136-138 | the claimant's pending presses are discarded |
| Game.Dealer.Award | set/ex/Dealer.java:128-145 | point and freeze, setToRemove becomes the claimed slots, they are emptied, every player's tokens on them are lifted, the gaps are dealt, the cards are out and the timer restarts; the claimant has no token left |
| Game.Dealer.AwardedState | set/ex/Dealer.java:128-145 | the state after point, removal and refill is exactly the awarded outcome, with each player's selection cleared on the claimed slots |
| Game.Dealer.Score | set/ex/Dealer.java:128-138 | point and freeze, setToRemove becomes the claimed slots, and the claimant's pending presses are discarded |
| Game.Dealer.Credit | set/ex/Dealer.java:129 | the claimant's score rises by one and it is frozen for the point freeze time (a verification-cost split of Score) |
| Game.Dealer.MarkForRemoval | set/ex/Dealer.java:130-132 | setToRemove becomes the claimed slots |
| Game.Dealer.Replace | set/ex/Dealer.java:141-145 | the timer restarts, the claimed cards leave the table and the gaps are dealt |
| Game.Dealer.Refill | set/ex/Dealer.java:142-145 | the claimed cards leave the table and the gaps are dealt |
| Game.Dealer.Restart | set/ex/Dealer.java:238-239 | the countdown restarts at now plus the turn timeout (a verification-cost split of Replace) |
| Game.Dealer.Reject | set/ex/Dealer.java:133-141 | an illegal claim on the table earns the penalty freeze, a dropped one none; presses are discarded and nothing else of table, deck, selections, score, setToRemove or timer changes |
| Game.Dealer.AnnounceWinners | set/ex/Dealer.java:285-302 | the announced ids are the players holding the highest score, in id order |
| Game.Dealer.WinnersLead | set/ex/Dealer.java:285-301 | a player is announced exactly when no one has more points; ids are increasing; some player wins when there are players |

## Left out

- Threads, `wait`/`notifyAll`, the dealer's semaphore, `join`, `terminate()` and the two
  `run` loops are not modelled. Each player block, and each of the three multi-block dealer
  operations listed above, is one atomic method; the run loops are the order in which a
  caller invokes them.
- The computer player's key-press thread (`Player.java:134-155`) is not modelled. It only
  calls `KeyPressed` with a random slot.
- The user interface (`setScore`, `setFreeze`, `setCountdown`, `removeTokens`,
  `announceWinner`) and `printf` are not modelled. Where the displayed values matter, they
  are returned (`Penalize`, `UpdateTimerDisplay`, `AnnounceWinners`).
- Sleeping and the clock are not modelled. The current time is a parameter `now`.
- `Math.random()` draws are a parameter `rand` of reals in [0, 1), one per slot.
- `testSet` and `findSets` are fields of function type. The rules of the game itself are
  not part of this model.
- `Table` is not part of this model beyond its `slotToCard` array. Its tokens are not
  modelled, `removeToken` always succeeds, and `Table.constructor` only builds an
  all-empty table.
- Every slot holds a card id or `-1` here. `Table.java` is not part of this model, so it is
  open whether a slot can still be `null`. If it can, the test `table.slotToCard[i] != -1` at
  `Dealer.java:272` unboxes it and throws a `NullPointerException`; the model has no such
  slot and no such exception.
- The interleavings inside the three multi-block dealer operations are not modelled, so
  `Pending` (each queued id matches a raised `checkingSet`) holds here but not in every Java
  run. For example, a player may pass the `cardsOnTable` test at `Player.java:117` while
  `removeAllCardsFromTable` has cleared the queue (`Dealer.java:251-255`) and is still
  waiting for that player's lock at `Dealer.java:258`. The player then queues a claim
  (`Player.java:214-216`), and the dealer resets its `checkingSet`. The queue then holds
  the id of a player whose flag is down, and the next round reads that player's live
  `setArray`.
- Scores and times are unbounded integers. `long` and `int` overflow are not modelled.
- Game.Player.ActionFromQueue: requires `!checkingSet`, which its only caller checks at
  `Player.java:117`.
- Game.Player.KeyPressed: requires a slot of the table. The key map only produces those,
  and any other slot would throw in Java.
- Game.Dealer.RemoveCardsFromTable: requires every slot of `setToRemove` to lie on the
  table. It only runs after a legal claim whose slots were checked not to be `-1`.
- Game.Dealer.ResolveClaim: requires a queued claim. The Java code peeks without checking,
  and `TimerLoopStep` models an empty queue as the dealer sleeping on.
- Game.Dealer.AnnounceWinners: requires players indexed by id, as the game builds them.
- The `score()` getter is read as the field. Cards removed by legal claims are tracked in
  the ghost multiset `discarded`, which the Java code does not keep.
