/**
 * The shared state of a Set game and the critical sections that change it.
 *
 * Each synchronized block of a player is one atomic method here, and so is each dealer
 * operation that spans several blocks (a claim's resolution, removeCardsFromTable and
 * removeAllCardsFromTable); the threads that interleave those blocks, and the waiting
 * between them, are not modelled. A player keeps its selection in the 3x3 array
 * `setArray`; a claim is queued by the id of the player whose array it is, and the dealer
 * reads that array when it takes the claim up, so a claim whose cards were removed in the
 * meantime shows `Empty` slots (stale).
 */
module Game {
  import opened Layout
  import opened Selections
  import Freeze
  import Scores

  /** A Java reference that may be null. */
  datatype Option<T> = None | Some(value: T)

  /** What one pass of the dealer's timer loop did. */
  datatype Verdict =
    | RoundOver              // terminate was set or the reshuffle time has come
    | Waiting                // no claim is queued: the dealer sleeps on
    | Awarded(player: nat)   // a legal claim on cards still on the table
    | Penalized(player: nat) // an illegal claim on cards still on the table
    | Dropped(player: nat)   // a stale claim: neither point nor penalty

  /**
   * The part of the dealer's state that resolving a claim may change: the table, the deck,
   * every player's selection, the claimant's score and freeze, the cards-out flag,
   * setToRemove and the turn timer.
   */
  datatype Snapshot = Snapshot(
    table: seq<int>, deck: seq<int>, sels: seq<seq<Column>>, score: int, frozen: int,
    cardsOut: bool, marked: seq<int>, timer: int)

  /** The reshuffle time before the first round: Long.MAX_VALUE. */
  const LongMax := 0x7FFF_FFFF_FFFF_FFFF

  /** The table; of it, only the slot-to-card array belongs to this model. */
  class Table {
    const slotToCard: array<int>

    constructor (tableSize: nat)
      ensures slotToCard.Length == tableSize && fresh(slotToCard)
      ensures Cleared(slotToCard[..])
    {
      slotToCard := new int[tableSize](_ => Empty);
    }
  }

  class Player {
    const id: nat
    const table: Table
    const pointFreezeMillis: int
    const penaltyFreezeMillis: int
    /** Row 0: card ids; row 1: the slots they lie on; cell [2, 0]: the player's id. */
    const setArray: array2<int>
    var usedTokens: int
    /** Pending key presses (slots), at most three. */
    var incomingActions: seq<int>
    var penalizedTime: int
    /** The player's claim is waiting for the dealer. */
    var checkingSet: bool
    var score: int
    /** The selection the first two rows of setArray hold, column by column. */
    ghost var sel: seq<Column>

    /** `sel` is what the first two rows of setArray hold. */
    ghost predicate Mirrors()
      reads this`sel, setArray
    {
      && setArray.Length0 == 3 && setArray.Length1 == 3 && |sel| == 3
      && forall k :: 0 <= k < 3 ==> setArray[0, k] == sel[k].card && setArray[1, k] == sel[k].slot
    }

    /** The player's own invariant: a well-formed selection counted by usedTokens. */
    ghost predicate Valid()
      reads this`sel, this`usedTokens, this`incomingActions, this`score, setArray
    {
      && Mirrors()
      && setArray[2, 0] == id
      && WellFormed(sel)
      && usedTokens == Count(sel)
      && |incomingActions| <= 3
      && (forall k :: 0 <= k < |incomingActions| ==> 0 <= incomingActions[k] < table.slotToCard.Length)
      && score >= 0
    }

    /** The rows the dealer copies out of setArray are the selection's card and slot rows. */
    lemma RowsAreSel()
      requires Mirrors()
      ensures [setArray[0, 0], setArray[0, 1], setArray[0, 2]] == CardRow(sel)
      ensures [setArray[1, 0], setArray[1, 1], setArray[1, 2]] == SlotRow(sel)
    {
    }

    /** Valid, and every recorded card still lies on the slot recorded with it. */
    ghost predicate Current()
      reads this`sel, this`usedTokens, this`incomingActions, this`score, setArray, table.slotToCard
    {
      && Valid()
      && Matches(sel, table.slotToCard[..])
    }

    /** The state a player starts a round in: no token down, no press pending, no claim. */
    ghost predicate Fresh()
      reads this`sel, this`usedTokens, this`incomingActions, this`checkingSet
    {
      && sel == [FreeColumn, FreeColumn, FreeColumn]
      && usedTokens == 0 && incomingActions == [] && !checkingSet
    }

    constructor (id: nat, table: Table, pointFreezeMillis: int, penaltyFreezeMillis: int)
      ensures this.id == id && this.table == table
      ensures this.pointFreezeMillis == pointFreezeMillis && this.penaltyFreezeMillis == penaltyFreezeMillis
      ensures fresh(setArray) && Current() && Fresh()
      ensures penalizedTime == 0 && score == 0
    {
      this.id := id;
      this.table := table;
      this.pointFreezeMillis := pointFreezeMillis;
      this.penaltyFreezeMillis := penaltyFreezeMillis;
      usedTokens := 0;
      var a := new int[3, 3];
      for i := 0 to 2
        invariant forall r, c :: 0 <= r < i && 0 <= c < 3 ==> a[r, c] == Empty
      {
        for j := 0 to 3
          invariant forall r, c :: 0 <= r < 3 && 0 <= c < 3 && (r < i || (r == i && c < j)) ==> a[r, c] == Empty
        {
          a[i, j] := Empty;
        }
      }
      a[2, 0] := id;
      setArray := a;
      incomingActions := [];
      penalizedTime := 0;
      checkingSet := false;
      score := 0;
      sel := [FreeColumn, FreeColumn, FreeColumn];
      new;
      NothingRecorded(sel);
    }

    /**
     * keyPressed: the slot joins the pending presses only while fewer than three are
     * pending, the player is not frozen, the slot holds a card, cards are on the table
     * and no claim of the player is being checked.
     */
    method KeyPressed(slot: int, dealer: Dealer)
      requires dealer.Valid() && dealer.Has(this)
      requires 0 <= slot < table.slotToCard.Length
      modifies this`incomingActions
      ensures dealer.Valid()
      ensures incomingActions ==
        if |old(incomingActions)| < 3 && penalizedTime == 0 && table.slotToCard[slot] != Empty
           && dealer.cardsOnTable && !checkingSet
        then old(incomingActions) + [slot]
        else old(incomingActions)
    {
      if |incomingActions| < 3 && penalizedTime == 0 && table.slotToCard[slot] != Empty && dealer.cardsOnTable && !checkingSet {
        incomingActions := incomingActions + [slot];
      }
    }

    /**
     * actionFromQueue: a press on a slot that bears the player's token takes the token
     * back; otherwise, below three tokens, the card on the slot is recorded in the first
     * free column, and the third token submits the selection as a claim.
     */
    method ActionFromQueue(slot: int, dealer: Dealer)
      requires dealer.Valid() && dealer.Has(this) && !checkingSet
      requires 0 <= slot < table.slotToCard.Length
      modifies this`usedTokens, this`checkingSet, this`sel, setArray, dealer`requests
      ensures dealer.Valid()
      ensures sel == Act(old(sel), slot, table.slotToCard[slot])
      ensures var submitted := Submits(old(sel), slot, table.slotToCard[slot]);
        && checkingSet == submitted
        && dealer.requests == old(dealer.requests) + (if submitted then [id] else [])
    {
      var full := Press(slot, dealer);
      if full {
        Submit(dealer);
      }
    }

    /** The claim of actionFromQueue: checkingSet is raised and the claim joins the dealer's queue. */
    method Submit(dealer: Dealer)
      requires dealer.Valid() && dealer.Has(this) && !checkingSet
      modifies this`checkingSet, dealer`requests
      ensures dealer.Valid() && checkingSet && dealer.requests == old(dealer.requests) + [id]
    {
      checkingSet := true;
      dealer.AddSetToQueue(Some(id));
    }

    /** RecordPress, seen from the dealer: the dealer's invariant survives it. */
    method Press(slot: int, dealer: Dealer) returns (full: bool)
      requires dealer.Valid() && dealer.Has(this) && 0 <= slot < table.slotToCard.Length
      modifies this`usedTokens, this`sel, setArray
      ensures dealer.Valid()
      ensures sel == Act(old(sel), slot, table.slotToCard[slot])
      ensures full == Submits(old(sel), slot, table.slotToCard[slot])
    {
      full := RecordPress(slot);
    }

    /**
     * The token bookkeeping of actionFromQueue: the selection changes as Act says, and
     * `full` tells whether this press placed the third token.
     */
    method RecordPress(slot: int) returns (full: bool)
      requires Current() && 0 <= slot < table.slotToCard.Length
      modifies this`usedTokens, this`sel, setArray
      ensures Current()
      ensures sel == Act(old(sel), slot, table.slotToCard[slot])
      ensures full == Submits(old(sel), slot, table.slotToCard[slot])
    {
      ghost var sel0 := sel;
      full := false;
      ActMatches(sel0, table.slotToCard[..], slot);
      if table.slotToCard[slot] != Empty {
        RecordedAt(sel0, slot);
        var removed := TakeBack(slot);
        if removed {
          ActRemoves(sel0, slot, table.slotToCard[slot]);
        } else if usedTokens < 3 {
          var cardId := table.slotToCard[slot];
          ActPlaces(sel0, slot, cardId);
          PlaceToken(slot, cardId);
          full := usedTokens == 3;
        } else {
          ActIgnores(sel0, slot, table.slotToCard[slot]);
        }
      }
    }

    /** The first loop of actionFromQueue: the column recording `slot`, if any, is cleared. */
    method TakeBack(slot: int) returns (removed: bool)
      requires Mirrors()
      modifies this`usedTokens, this`sel, setArray
      ensures Mirrors() && setArray[2, 0] == old(setArray[2, 0])
      ensures removed == (IndexOf(old(sel), slot) < 3)
      ensures removed ==> sel == old(sel)[IndexOf(old(sel), slot) := FreeColumn] && usedTokens == old(usedTokens) - 1
      ensures !removed ==> sel == old(sel) && usedTokens == old(usedTokens)
    {
      removed := false;
      var i := 0;
      while !removed && i < 3
        invariant 0 <= i <= 3 && Mirrors() && setArray[2, 0] == old(setArray[2, 0])
        invariant !removed ==> sel == old(sel) && usedTokens == old(usedTokens)
        invariant !removed ==> forall k :: 0 <= k < i ==> old(sel)[k].slot != slot
        invariant removed ==> 0 < i && IndexOf(old(sel), slot) == i - 1
        invariant removed ==> sel == old(sel)[i - 1 := FreeColumn] && usedTokens == old(usedTokens) - 1
      {
        if setArray[1, i] == slot {
          // table.removeToken succeeds: the slot bears this player's token
          removed := true;
          setArray[0, i] := Empty;
          setArray[1, i] := Empty;
          usedTokens := usedTokens - 1;
          sel := sel[i := FreeColumn];
        }
        i := i + 1;
      }
    }

    /** The second loop of actionFromQueue: (card, slot) goes into the first free column. */
    method PlaceToken(slot: int, cardId: int)
      requires Mirrors()
      modifies this`usedTokens, this`sel, setArray
      ensures Mirrors() && setArray[2, 0] == old(setArray[2, 0])
      ensures FreeIndex(old(sel)) < 3 ==>
        sel == old(sel)[FreeIndex(old(sel)) := Column(cardId, slot)] && usedTokens == old(usedTokens) + 1
      ensures FreeIndex(old(sel)) == 3 ==> sel == old(sel) && usedTokens == old(usedTokens)
    {
      var placed := false;
      var i := 0;
      while !placed && i < 3
        invariant 0 <= i <= 3 && Mirrors() && setArray[2, 0] == old(setArray[2, 0])
        invariant !placed ==> sel == old(sel) && usedTokens == old(usedTokens)
        invariant !placed ==> forall k :: 0 <= k < i ==> old(sel)[k].card != Empty
        invariant placed ==> 0 < i && FreeIndex(old(sel)) == i - 1
        invariant placed ==> sel == old(sel)[i - 1 := Column(cardId, slot)] && usedTokens == old(usedTokens) + 1
      {
        if setArray[0, i] == Empty {
          setArray[0, i] := cardId;
          setArray[1, i] := slot;
          usedTokens := usedTokens + 1;
          placed := true;
          sel := sel[i := Column(cardId, slot)];
        }
        i := i + 1;
      }
    }

    /** The player thread's step at Player.java:117-119: take the oldest press, if allowed. */
    method ProcessNextAction(dealer: Dealer) returns (acted: bool)
      requires dealer.Valid() && dealer.Has(this)
      modifies this`incomingActions, this`usedTokens, this`checkingSet, this`sel, setArray, dealer`requests
      ensures dealer.Valid()
      ensures acted == (old(incomingActions) != [] && old(penalizedTime) == 0 && old(dealer.cardsOnTable) && !old(checkingSet))
      ensures acted ==>
        var slot := old(incomingActions)[0];
        var submitted := Submits(old(sel), slot, table.slotToCard[slot]);
        && incomingActions == old(incomingActions)[1..]
        && sel == Act(old(sel), slot, table.slotToCard[slot])
        && checkingSet == submitted
        && dealer.requests == old(dealer.requests) + (if submitted then [id] else [])
      ensures !acted ==>
        && incomingActions == old(incomingActions) && sel == old(sel)
        && usedTokens == old(usedTokens) && checkingSet == old(checkingSet)
        && dealer.requests == old(dealer.requests)
    {
      acted := incomingActions != [] && penalizedTime == 0 && dealer.cardsOnTable && !checkingSet;
      if acted {
        ActOnNextPress(dealer);
      }
    }

    /** The body of the step at Player.java:117-119: the oldest press is taken and acted on. */
    method ActOnNextPress(dealer: Dealer)
      requires dealer.Valid() && dealer.Has(this) && incomingActions != [] && !checkingSet
      modifies this`incomingActions, this`usedTokens, this`checkingSet, this`sel, setArray, dealer`requests
      ensures dealer.Valid()
      ensures
        var slot := old(incomingActions)[0];
        var submitted := Submits(old(sel), slot, table.slotToCard[slot]);
        && incomingActions == old(incomingActions)[1..]
        && sel == Act(old(sel), slot, table.slotToCard[slot])
        && checkingSet == submitted
        && dealer.requests == old(dealer.requests) + (if submitted then [id] else [])
    {
      var slot := NextPress(dealer);
      ActionFromQueue(slot, dealer);
    }

    /** incomingActions.remove(): the oldest pending press leaves the queue. */
    method NextPress(dealer: Dealer) returns (slot: int)
      requires dealer.Valid() && dealer.Has(this) && incomingActions != []
      modifies this`incomingActions
      ensures dealer.Valid() && 0 <= slot < table.slotToCard.Length
      ensures slot == old(incomingActions)[0] && incomingActions == old(incomingActions)[1..]
    {
      slot := incomingActions[0];
      incomingActions := incomingActions[1..];
    }

    /** point: one more point, and the point freeze starts. */
    method Point()
      requires Current()
      modifies this`score, this`penalizedTime
      ensures Current()
      ensures score == old(score) + 1 && penalizedTime == pointFreezeMillis
    {
      score := score + 1;
      penalizedTime := pointFreezeMillis;
    }

    /** penalty: the penalty freeze starts; the score is kept. */
    method Penalty()
      modifies this`penalizedTime
      ensures penalizedTime == penaltyFreezeMillis
    {
      penalizedTime := penaltyFreezeMillis;
    }

    /**
     * penalize: serves the freeze, reporting the freeze time and then the time left after
     * each sleep; afterwards the player is no longer frozen.
     */
    method Penalize() returns (shown: seq<int>)
      modifies this`penalizedTime
      ensures shown == Freeze.Reports(old(penalizedTime))
      ensures penalizedTime == 0
    {
      shown := [];
      if penalizedTime > 0 {
        shown := [penalizedTime];
        var time := penalizedTime;
        while time > 0
          invariant shown + Freeze.Countdown(time) == Freeze.Reports(penalizedTime)
          decreases time
        {
          if time >= Freeze.Tick {
            time := time - Freeze.Tick;
          } else {
            time := 0;
          }
          shown := shown + [time];
        }
      }
      penalizedTime := 0;
    }

    /**
     * The dealer's per-player step in removeCardsFromTable: the column that records
     * `slot` is cleared and its token given back.
     */
    method ReleaseSlot(slot: int)
      requires Current() && slot != Empty
      modifies this`usedTokens, this`sel, setArray
      ensures Current()
      ensures sel == ClearSlots(old(sel), [slot])
      ensures slot !in Slots(sel)
    {
      for k := 0 to 3
        invariant Current()
        invariant forall c :: 0 <= c < 3 ==> sel[c] == if c < k && old(sel)[c].slot == slot then FreeColumn else old(sel)[c]
      {
        if setArray[1, k] == slot {
          ReleaseColumn(k);
        }
      }
      assert sel == ClearSlots(old(sel), [slot]);
      ClearSlotsKeepsShape(old(sel), [slot]);
    }

    /** One column of releaseSlot: the token in column `k` leaves the selection. */
    method ReleaseColumn(k: nat)
      requires Current() && k < 3 && setArray[1, k] != Empty
      modifies this`usedTokens, this`sel, setArray
      ensures Current() && sel == old(sel)[k := FreeColumn]
    {
      CountUpdate(sel, k, FreeColumn);
      setArray[1, k] := Empty;
      setArray[0, k] := Empty;
      usedTokens := usedTokens - 1;
      sel := sel[k := FreeColumn];
    }

    /** The dealer's per-player step in removeAllCardsFromTable: the player starts afresh. */
    method ClearSelection()
      requires Valid()
      modifies this`usedTokens, this`incomingActions, this`checkingSet, this`sel, setArray
      ensures Current() && Fresh() && Slots(sel) == {}
    {
      usedTokens := 0;
      incomingActions := [];
      checkingSet := false;   // the source repeats this, and the cell write, inside the loop
      for k := 0 to 2
        invariant usedTokens == 0 && incomingActions == [] && !checkingSet
        invariant setArray[2, 0] == id
        invariant forall r, c :: 0 <= r < k && 0 <= c < 3 ==> setArray[r, c] == Empty
      {
        for j := 0 to 3
          invariant usedTokens == 0 && incomingActions == [] && !checkingSet
          invariant setArray[2, 0] == id
          invariant forall r, c :: 0 <= r < 3 && 0 <= c < 3 && (r < k || (r == k && c < j)) ==> setArray[r, c] == Empty
        {
          setArray[k, j] := Empty;
        }
      }
      sel := [FreeColumn, FreeColumn, FreeColumn];
      NothingRecorded(sel);
    }
  }

  class Dealer {
    const table: Table
    const players: seq<Player>
    const deckSize: nat
    const turnTimeoutMillis: int
    const turnTimeoutWarningMillis: int
    /** Whether three cards form a legal set (the game's utility, not modelled here). */
    const testSet: seq<int> -> bool
    /** Up to `count` legal sets among the given cards (the game's utility). */
    const findSets: (seq<int>, nat) -> seq<seq<int>>
    /** The slots of the last legal claim, emptied by removeCardsFromTable. */
    const setToRemove: array<int>
    var deck: seq<int>
    var terminate: bool
    var reshuffleTime: int
    /** Queued claims, oldest first; each is the id of the player whose setArray it is. */
    var requests: seq<nat>
    var cardsOnTable: bool
    /** The cards taken off the table by legal claims; they never come back. */
    ghost var discarded: multiset<int>

    /** The players, as a set: the objects whose fields the dealer reads and writes. */
    ghost const playerSet: set<Player>
    /** The players' setArrays, which the dealer reads and writes. */
    ghost const arrays: set<array2<int>>

    ghost predicate Has(p: Player)
    {
      p.id < |players| && players[p.id] == p
    }

    /**
     * How the game's objects are wired together; it reads no mutable state, so it holds
     * for good once the dealer is built.
     */
    ghost predicate Wired()
    {
      && setToRemove.Length == 3 && setToRemove != table.slotToCard
      && (forall i :: 0 <= i < |players| ==> players[i].id == i && players[i].table == table)
      && (forall i :: 0 <= i < |players| ==> players[i] in playerSet && players[i].setArray in arrays)
      && (forall i, j :: 0 <= i < |players| && 0 <= j < |players| && i != j ==> players[i].setArray != players[j].setArray)
    }

    /**
     * The cards and the selections agree: every card id is in exactly one of the deck,
     * the table and the discarded cards, and every player's selection is valid and
     * records only cards that lie where it says.
     */
    ghost predicate Consistent()
      reads this`deck, this`discarded, table.slotToCard, arrays
      reads playerSet`sel, playerSet`usedTokens, playerSet`incomingActions, playerSet`score
    {
      && Wired()
      && PlayersCurrent()
      && Conserved()
    }

    ghost predicate PlayersCurrent()
      requires Wired()
      reads table.slotToCard, arrays
      reads playerSet`sel, playerSet`usedTokens, playerSet`incomingActions, playerSet`score
    {
      forall i :: 0 <= i < |players| ==> players[i].Current()
    }

    ghost predicate Conserved()
      reads this`deck, this`discarded, table.slotToCard
    {
      multiset(deck) + multiset(OnTable(table.slotToCard[..])) + discarded == multiset(Range(deckSize))
    }

    /** Every player has at most one queued claim, and checks a set exactly while it has one. */
    ghost predicate Pending()
      requires Wired()
      reads this`requests, playerSet`checkingSet
    {
      && (forall a :: 0 <= a < |requests| ==> requests[a] < |players|)
      && (forall a, b :: 0 <= a < b < |requests| ==> requests[a] != requests[b])
      && (forall i :: 0 <= i < |players| ==> (players[i].checkingSet <==> i in requests))
    }

    ghost predicate Valid()
      reads this`deck, this`discarded, this`requests, table.slotToCard, arrays
      reads playerSet`sel, playerSet`usedTokens, playerSet`incomingActions, playerSet`score, playerSet`checkingSet
    {
      Consistent() && Pending()
    }

    /** The players' scores, by id. */
    ghost function ScoreBoard(): (r: seq<int>)
      reads set p | p in players
      ensures |r| == |players| && forall i :: 0 <= i < |players| ==> r[i] == players[i].score
    {
      seq(|players|, i requires 0 <= i < |players| reads set p | p in players => players[i].score)
    }

    constructor (table: Table, players: seq<Player>, deckSize: nat, turnTimeoutMillis: int,
                 turnTimeoutWarningMillis: int, testSet: seq<int> -> bool,
                 findSets: (seq<int>, nat) -> seq<seq<int>>)
      requires Cleared(table.slotToCard[..])
      requires forall i :: 0 <= i < |players| ==> players[i].id == i && players[i].table == table
      requires forall i, j :: 0 <= i < j < |players| ==> players[i].setArray != players[j].setArray
      requires forall i :: 0 <= i < |players| ==> players[i].Current() && !players[i].checkingSet
      ensures this.table == table && this.players == players && this.deckSize == deckSize
      ensures this.turnTimeoutMillis == turnTimeoutMillis
      ensures this.turnTimeoutWarningMillis == turnTimeoutWarningMillis
      ensures this.testSet == testSet && this.findSets == findSets
      ensures Valid() && fresh(setToRemove)
      ensures deck == Range(deckSize) && requests == [] && !cardsOnTable && !terminate
      ensures reshuffleTime == LongMax && setToRemove[..] == [Empty, Empty, Empty]
    {
      this.table := table;
      this.players := players;
      this.deckSize := deckSize;
      this.turnTimeoutMillis := turnTimeoutMillis;
      this.turnTimeoutWarningMillis := turnTimeoutWarningMillis;
      this.testSet := testSet;
      this.findSets := findSets;
      playerSet := set p | p in players;
      arrays := set p | p in players :: p.setArray;
      deck := Range(deckSize);
      requests := [];
      var toRemove := NoSlots();
      setToRemove := toRemove;
      cardsOnTable := false;
      terminate := false;
      reshuffleTime := LongMax;
      discarded := multiset{};
      new;
      WiredByConstruction();
      ClearedHoldsNothing(table.slotToCard[..]);
    }

    /** The setToRemove buffer of the constructor (Dealer.java:58-61): three slots, all -1. */
    static method NoSlots() returns (a: array<int>)
      ensures fresh(a) && a[..] == [Empty, Empty, Empty]
    {
      a := new int[3];
      for i := 0 to 3
        invariant forall k :: 0 <= k < i ==> a[k] == Empty
      {
        a[i] := Empty;
      }
      assert a[..] == [Empty, Empty, Empty];
    }

    /** The constructor's arguments, as it requires them, wire the game together. */
    lemma WiredByConstruction()
      requires setToRemove.Length == 3 && setToRemove != table.slotToCard
      requires forall i :: 0 <= i < |players| ==> players[i].id == i && players[i].table == table
      requires forall i, j :: 0 <= i < j < |players| ==> players[i].setArray != players[j].setArray
      requires playerSet == (set p | p in players) && arrays == (set p | p in players :: p.setArray)
      ensures Wired()
    {
      forall i, j | 0 <= i < |players| && 0 <= j < |players| && i != j
        ensures players[i].setArray != players[j].setArray
      {
        if j < i {
          assert players[j].setArray != players[i].setArray;
        }
      }
    }

    /** addSetToQueue: a claim that is not null joins the end of the queue. */
    method AddSetToQueue(claim: Option<nat>)
      modifies this`requests
      ensures requests == if claim.Some? then old(requests) + [claim.value] else old(requests)
    {
      if claim.Some? {
        requests := requests + [claim.value];
      }
    }

    /** shouldFinish: terminate was set, or the deck holds no legal set. */
    predicate ShouldFinish()
      reads this`terminate, this`deck
    {
      terminate || |findSets(deck, 1)| == 0
    }

    /**
     * updateTimerDisplay: a reset restarts the turn at `now`; the countdown shown is the
     * distance between the reshuffle time and `now`, shown a second time, as a warning,
     * once it is within the warning time.
     */
    method UpdateTimerDisplay(reset: bool, now: int) returns (shown: seq<(int, bool)>)
      modifies this`reshuffleTime
      ensures reshuffleTime == if reset then now + turnTimeoutMillis else old(reshuffleTime)
      ensures var timer := if reshuffleTime >= now then reshuffleTime - now else now - reshuffleTime;
        && |shown| >= 1 && shown[0] == (timer, reset) && timer >= 0
        && (|shown| == 2 <==> timer <= turnTimeoutWarningMillis)
        && (|shown| == 2 ==> shown[1] == (timer, true))
      ensures reset && turnTimeoutMillis >= 0 ==> shown[0] == (turnTimeoutMillis, true)
    {
      if reset {
        reshuffleTime := now + turnTimeoutMillis;
      }
      var timer := if reshuffleTime >= now then reshuffleTime - now else now - reshuffleTime;
      shown := [(timer, reset)];
      if timer <= turnTimeoutWarningMillis {
        shown := shown + [(timer, true)];
      }
    }

    /**
     * placeCardsOnTable: every empty slot, in slot order and while the deck lasts,
     * receives a card drawn from the deck at a random index (`rand[i]` for slot `i`).
     */
    method PlaceCardsOnTable(rand: seq<real>)
      requires Consistent() && |rand| == table.slotToCard.Length && Unit(rand)
      modifies this`deck, this`cardsOnTable, table.slotToCard
      ensures Consistent() && cardsOnTable
      ensures Dealt(table.slotToCard[..], deck) == Deal(old(table.slotToCard[..]), old(deck), rand)
    {
      ghost var t0, d0 := table.slotToCard[..], deck;
      for i := 0 to table.slotToCard.Length
        invariant Consistent()
        invariant DealFrom(table.slotToCard[..], deck, rand, i) == Deal(t0, d0, rand)
      {
        DealSlot(i, rand[i]);
      }
      cardsOnTable := true;
    }

    /** One pass of the loop of placeCardsOnTable: slot `i`, random draw `r`. */
    method DealSlot(i: nat, r: real)
      requires Consistent() && i < table.slotToCard.Length && 0.0 <= r < 1.0
      modifies this`deck, table.slotToCard
      ensures Consistent()
      ensures Dealt(table.slotToCard[..], deck) == DealStep(old(table.slotToCard[..]), old(deck), r, i)
    {
      if deck != [] && table.slotToCard[i] == Empty {
        var random := Pick(r, |deck|);
        DrawInto(i, random);
      }
    }

    /** deck.remove(random), then table.placeCard on the empty slot `i`. */
    method DrawInto(i: nat, random: nat)
      requires Consistent() && i < table.slotToCard.Length && table.slotToCard[i] == Empty && random < |deck|
      modifies this`deck, table.slotToCard
      ensures Consistent()
      ensures deck == old(deck[..random] + deck[random + 1..])
      ensures table.slotToCard[..] == old(table.slotToCard[..])[i := old(deck[random])]
    {
      ghost var t := table.slotToCard[..];
      CardsAccountedFor(deck, t, discarded, deckSize);
      var card := deck[random];
      TakeCard(t, deck, i, random);
      deck := deck[..random] + deck[random + 1..];
      table.slotToCard[i] := card;   // table.placeCard
      assert table.slotToCard[..] == t[i := card];
      CurrentAfterSlot(t, i);
    }

    /**
     * Changing slot `i` of table `t` leaves every selection matching, when the slot was
     * empty or no player records it.
     */
    lemma CurrentAfterSlot(t: seq<int>, i: nat)
      requires Wired() && i < |t| == table.slotToCard.Length
      requires t[i] == Empty || forall j :: 0 <= j < |players| ==> i !in Slots(players[j].sel)
      requires table.slotToCard[..] == t[i := table.slotToCard[i]]
      requires forall j :: 0 <= j < |players| ==> players[j].Valid() && Matches(players[j].sel, t)
      ensures PlayersCurrent()
    {
      forall j | 0 <= j < |players|
        ensures players[j].Current()
      {
        var p := players[j];
        if t[i] == Empty {
          EmptySlotUnrecorded(p.sel, t, i);
        }
        MatchesElsewhere(p.sel, t, table.slotToCard[..]);
      }
    }
  
    /** The first lines of a round (Dealer.java:83-84): deal, then start the turn timer at `now`. */
    method StartRound(now: int, rand: seq<real>)
      requires Valid() && |rand| == table.slotToCard.Length && Unit(rand)
      modifies this`deck, this`cardsOnTable, this`reshuffleTime, table.slotToCard
      ensures Valid() && cardsOnTable
      ensures Dealt(table.slotToCard[..], deck) == Deal(old(table.slotToCard[..]), old(deck), rand)
      ensures reshuffleTime == now + turnTimeoutMillis
    {
      PlaceCardsOnTable(rand);
      reshuffleTime := now + turnTimeoutMillis;
    }

    /**
     * removeCardsFromTable: every player's token on a slot of setToRemove is given back,
     * and the card on each such slot leaves the game.
     */
    method RemoveCardsFromTable()
      requires Consistent()
      requires forall g :: 0 <= g < 3 ==> 0 <= setToRemove[g] < table.slotToCard.Length
      modifies this`cardsOnTable, this`discarded, table.slotToCard, playerSet`sel, playerSet`usedTokens, arrays
      ensures Consistent() && !cardsOnTable && deck == old(deck)
      ensures table.slotToCard[..] == RemoveSlots(old(table.slotToCard[..]), setToRemove[..])
      ensures forall j :: 0 <= j < |players| ==>
        players[j].sel == ClearSlots(old(players[j].sel), setToRemove[..])
    {
      cardsOnTable := false;
      ghost var t0, sels0 := table.slotToCard[..], Sels();
      NothingRemovedYet(t0, sels0);
      RemoveEach(t0, sels0);
      AllRemoved(t0, sels0);
    }

    /** The outer loop of removeCardsFromTable, over the three slots of setToRemove. */
    method RemoveEach(ghost t0: seq<int>, ghost sels0: seq<seq<Column>>)
      requires Consistent() && Removed(t0, sels0, 0)
      requires forall g :: 0 <= g < 3 ==> 0 <= setToRemove[g] < table.slotToCard.Length
      modifies this`discarded, table.slotToCard, playerSet`sel, playerSet`usedTokens, arrays
      ensures Consistent() && Removed(t0, sels0, 3)
    {
      for i := 0 to 3
        invariant Consistent() && Removed(t0, sels0, i)
      {
        RemoveNext(t0, sels0, i);
      }
    }

    /** The selections of all players, by id. */
    ghost function Sels(): (r: seq<seq<Column>>)
      reads players`sel
      ensures |r| == |players| && forall j :: 0 <= j < |players| ==> r[j] == players[j].sel
    {
      SelsUpTo(|players|)
    }

    /** The selections of the first `n` players. */
    ghost function SelsUpTo(n: nat): (r: seq<seq<Column>>)
      requires n <= |players|
      reads players`sel
      ensures |r| == n && forall j :: 0 <= j < n ==> r[j] == players[j].sel
    {
      if n == 0 then [] else SelsUpTo(n - 1) + [players[n - 1].sel]
    }

    /** The loop of removeCardsFromTable has dealt with the first `i` slots of setToRemove. */
    ghost predicate Removed(t0: seq<int>, sels0: seq<seq<Column>>, i: nat)
      requires Wired()
      reads table.slotToCard, setToRemove, playerSet`sel
    {
      && i <= setToRemove.Length && |sels0| == |players|
      && table.slotToCard[..] == RemoveSlots(t0, setToRemove[..i])
      && forall j :: 0 <= j < |players| ==> players[j].sel == ClearSlots(sels0[j], setToRemove[..i])
    }

    /** Before its loop, removeCardsFromTable has dealt with no slot. */
    lemma NothingRemovedYet(t0: seq<int>, sels0: seq<seq<Column>>)
      requires Wired() && t0 == table.slotToCard[..] && sels0 == Sels()
      ensures Removed(t0, sels0, 0)
    {
      assert setToRemove[..0] == [];
      RemoveNoSlots(t0);
      forall j | 0 <= j < |players|
        ensures players[j].sel == ClearSlots(sels0[j], [])
      {
        ClearNoSlots(sels0[j]);
      }
    }

    /** After its loop, removeCardsFromTable has dealt with every slot of setToRemove. */
    lemma AllRemoved(t0: seq<int>, sels0: seq<seq<Column>>)
      requires Wired() && Removed(t0, sels0, 3)
      ensures table.slotToCard[..] == RemoveSlots(t0, setToRemove[..])
      ensures forall j :: 0 <= j < |players| ==> players[j].sel == ClearSlots(sels0[j], setToRemove[..])
    {
      assert setToRemove[..3] == setToRemove[..];
    }

    /** One pass of the loop of removeCardsFromTable: the slot `setToRemove[i]` is dealt with. */
    method RemoveNext(ghost t0: seq<int>, ghost sels0: seq<seq<Column>>, i: nat)
      requires Consistent() && i < 3 && Removed(t0, sels0, i)
      requires 0 <= setToRemove[i] < table.slotToCard.Length
      modifies this`discarded, table.slotToCard, playerSet`sel, playerSet`usedTokens, arrays
      ensures Consistent() && Removed(t0, sels0, i + 1)
    {
      var s := setToRemove[i];
      ReleaseAll(s);
      if s != Empty {
        RemoveCard(s);
      }
      RemovedStep(t0, sels0, i);
    }

    /** Slot `setToRemove[i]` emptied and released by everyone: the loop has dealt with `i + 1` slots. */
    lemma RemovedStep(t0: seq<int>, sels0: seq<seq<Column>>, i: nat)
      requires Wired() && i < 3 && |sels0| == |players| && 0 <= setToRemove[i] < |t0|
      requires table.slotToCard[..] == RemoveSlots(t0, setToRemove[..i])[setToRemove[i] := Empty]
      requires forall j :: 0 <= j < |players| ==>
        players[j].sel == ClearSlots(ClearSlots(sels0[j], setToRemove[..i]), [setToRemove[i]])
      ensures Removed(t0, sels0, i + 1)
    {
      var s := setToRemove[i];
      assert setToRemove[..i + 1] == setToRemove[..i] + [s];
      RemoveSlotsStep(t0, setToRemove[..i], s);
      forall j | 0 <= j < |players|
        ensures players[j].sel == ClearSlots(sels0[j], setToRemove[..i + 1])
      {
        ClearSlotsStep(sels0[j], setToRemove[..i], s);
      }
    }

    /** The player loops of removeCardsFromTable for one slot: nobody keeps a token on `s`. */
    method ReleaseAll(s: int)
      requires Consistent() && 0 <= s < table.slotToCard.Length
      modifies playerSet`sel, playerSet`usedTokens, arrays
      ensures Consistent()
      ensures forall j :: 0 <= j < |players| ==>
        players[j].sel == ClearSlots(old(players[j].sel), [s]) && s !in Slots(players[j].sel)
    {
      ghost var sels0 := Sels();
      for j := 0 to |players|
        invariant Consistent() && Released(sels0, s, j)
      {
        ReleaseNext(sels0, s, j);
      }
    }

    /** The player loop of removeCardsFromTable for slot `s` has dealt with the first `j` players. */
    ghost predicate Released(sels0: seq<seq<Column>>, s: int, j: nat)
      requires Wired()
      reads playerSet`sel
    {
      && j <= |players| && |sels0| == |players|
      && forall l :: 0 <= l < |players| ==>
           if l < j then players[l].sel == ClearSlots(sels0[l], [s]) && s !in Slots(players[l].sel)
           else players[l].sel == sels0[l]
    }

    /** One pass of the player loop for slot `s`: player `j` gives back its token on `s`. */
    method ReleaseNext(ghost sels0: seq<seq<Column>>, s: int, j: nat)
      requires Consistent() && Released(sels0, s, j) && j < |players| && 0 <= s < table.slotToCard.Length
      modifies playerSet`sel, playerSet`usedTokens, arrays
      ensures Consistent() && Released(sels0, s, j + 1)
    {
      ReleaseOne(players[j], s);
    }

    /** One pass of a player loop of removeCardsFromTable: player `j` gives back its token on `s`. */
    method ReleaseOne(p: Player, s: int)
      requires Consistent() && Has(p) && 0 <= s < table.slotToCard.Length
      modifies p`sel, p`usedTokens, p.setArray
      ensures Consistent()
      ensures p.sel == ClearSlots(old(p.sel), [s]) && s !in Slots(p.sel)
    {
      p.ReleaseSlot(s);
    }

    /** table.removeCard on a slot no player records: its card, if any, is discarded. */
    method RemoveCard(s: int)
      requires Consistent() && 0 <= s < table.slotToCard.Length
      requires forall j :: 0 <= j < |players| ==> s !in Slots(players[j].sel)
      modifies this`discarded, table.slotToCard
      ensures Consistent()
      ensures table.slotToCard[..] == old(table.slotToCard[..])[s := Empty]
      ensures discarded == old(discarded) + multiset(Cell(old(table.slotToCard[s])))
    {
      ghost var t := table.slotToCard[..];
      DiscardSlot(deck, t, discarded, deckSize, s);
      discarded := discarded + multiset(Cell(table.slotToCard[s]));
      table.slotToCard[s] := Empty;
      assert table.slotToCard[..] == t[s := Empty];
      CurrentAfterSlot(t, s);
    }

    /** The card on slot `i` goes back to the end of the deck; no player records `i`. */
    method ReturnCard(i: int)
      requires Consistent() && 0 <= i < table.slotToCard.Length && table.slotToCard[i] != Empty
      requires forall j :: 0 <= j < |players| ==> i !in Slots(players[j].sel)
      modifies this`deck, table.slotToCard
      ensures Consistent()
      ensures table.slotToCard[..] == old(table.slotToCard[..])[i := Empty]
      ensures deck == old(deck) + [old(table.slotToCard[i])]
    {
      ghost var t := table.slotToCard[..];
      ReturnSlot(deck, t, discarded, deckSize, i);
      assert Cell(t[i]) == [t[i]];
      deck := deck + [table.slotToCard[i]];
      table.slotToCard[i] := Empty;   // table.removeCard
      assert table.slotToCard[..] == t[i := Empty];
      CurrentAfterSlot(t, i);
    }

    /**
     * removeAllCardsFromTable: the queue is emptied, every player starts afresh, and
     * every card on the table goes back to the end of the deck, in slot order.
     */
    method RemoveAllCardsFromTable()
      requires Consistent()
      modifies this`cardsOnTable, this`requests, this`deck, table.slotToCard
      modifies playerSet`sel, playerSet`usedTokens, playerSet`incomingActions, playerSet`checkingSet, arrays
      ensures Valid() && !cardsOnTable && requests == []
      ensures forall j :: 0 <= j < |players| ==> players[j].Fresh()
      ensures Cleared(table.slotToCard[..])
      ensures deck == old(deck) + OnTable(old(table.slotToCard[..]))
    {
      cardsOnTable := false;
      requests := [];
      ClearPlayers();
      ReturnAllCards();
    }

    /** The player loop of removeAllCardsFromTable: every player starts afresh. */
    method ClearPlayers()
      requires Consistent()
      modifies playerSet`sel, playerSet`usedTokens, playerSet`incomingActions, playerSet`checkingSet, arrays
      ensures Consistent()
      ensures forall j :: 0 <= j < |players| ==> players[j].Fresh() && Slots(players[j].sel) == {}
    {
      for i := 0 to |players|
        invariant Consistent()
        invariant forall l :: 0 <= l < i ==> players[l].Fresh() && Slots(players[l].sel) == {}
      {
        ClearOne(players[i]);
      }
    }

    /** One pass of the player loop of removeAllCardsFromTable. */
    method ClearOne(p: Player)
      requires Consistent() && Has(p)
      modifies p`sel, p`usedTokens, p`incomingActions, p`checkingSet, p.setArray
      ensures Consistent() && p.Fresh() && Slots(p.sel) == {}
    {
      p.ClearSelection();
    }

    /** The table loop of removeAllCardsFromTable: each card goes back to the deck, in slot order. */
    method ReturnAllCards()
      requires Consistent()
      requires forall j :: 0 <= j < |players| ==> Slots(players[j].sel) == {}
      modifies this`deck, table.slotToCard
      ensures Consistent() && Cleared(table.slotToCard[..])
      ensures deck == old(deck) + OnTable(old(table.slotToCard[..]))
    {
      ghost var t0, d0 := table.slotToCard[..], deck;
      for i := 0 to table.slotToCard.Length
        invariant Consistent() && Returned(t0, d0, i)
      {
        ReturnNext(t0, d0, i);
      }
      assert t0[..|t0|] == t0;
    }

    /** The table loop of removeAllCardsFromTable has returned the cards of the first `i` slots. */
    ghost predicate Returned(t0: seq<int>, d0: seq<int>, i: nat)
      reads this`deck, table.slotToCard
    {
      i <= |t0| && table.slotToCard[..] == EmptiedUpTo(t0, i) && deck == d0 + OnTable(t0[..i])
    }

    /** One pass of the table loop of removeAllCardsFromTable: the card on slot `i`, if any, goes back. */
    method ReturnNext(ghost t0: seq<int>, ghost d0: seq<int>, i: nat)
      requires Consistent() && i < |t0| && Returned(t0, d0, i)
      requires forall j :: 0 <= j < |players| ==> Slots(players[j].sel) == {}
      modifies this`deck, table.slotToCard
      ensures Consistent() && Returned(t0, d0, i + 1)
    {
      OnTablePrefix(t0, i);
      EmptiedStep(t0, i);
      if table.slotToCard[i] != Empty {
        ReturnCard(i);
      }
    }

    /** The last lines of a round (Dealer.java:86-87). */
    method EndRound(now: int)
      requires Consistent()
      modifies this`cardsOnTable, this`requests, this`deck, this`reshuffleTime, table.slotToCard
      modifies playerSet`sel, playerSet`usedTokens, playerSet`incomingActions, playerSet`checkingSet, arrays
      ensures Valid() && !cardsOnTable && requests == [] && Cleared(table.slotToCard[..])
      ensures forall j :: 0 <= j < |players| ==> players[j].Fresh()
      ensures deck == old(deck) + OnTable(old(table.slotToCard[..])) && reshuffleTime == old(reshuffleTime)
      ensures multiset(deck) + discarded == multiset(Range(deckSize))
    {
      var _ := UpdateTimerDisplay(false, now);
      RemoveAllCardsFromTable();
      ClearedHoldsNothing(table.slotToCard[..]);
    }

    /**
     * One pass of timerLoop after the dealer wakes: the round ends once terminate is set
     * or the reshuffle time has come; with no claim queued the dealer sleeps on;
     * otherwise the oldest claim is resolved.
     */
    method TimerLoopStep(now: int, rand: seq<real>) returns (verdict: Verdict)
      requires Valid() && |rand| == table.slotToCard.Length && Unit(rand)
      modifies this`requests, this`reshuffleTime, this`deck, this`cardsOnTable, this`discarded
      modifies setToRemove, table.slotToCard, arrays
      modifies playerSet`sel, playerSet`usedTokens
      modifies Queued()`score, Queued()`penalizedTime, Queued()`incomingActions, Queued()`checkingSet
      ensures Valid()
      ensures verdict.RoundOver? <==> terminate || now >= old(reshuffleTime)
      ensures verdict.Waiting? <==> !terminate && now < old(reshuffleTime) && old(requests) == []
      ensures verdict.RoundOver? || verdict.Waiting? ==>
        unchanged(this, table.slotToCard, setToRemove, arrays, playerSet)
      ensures !(verdict.RoundOver? || verdict.Waiting?) ==>
        && old(requests) != [] && requests == old(requests)[1..]
        && var pid := old(requests)[0]; var claim := old(players[pid].sel);
        && verdict == (if Stale(claim) then Dropped(pid)
                       else if testSet(CardRow(claim)) then Awarded(pid)
                       else Penalized(pid))
        && players[pid].incomingActions == [] && !players[pid].checkingSet
        && var p := players[pid];
        Snap(p) == Resolved(verdict, p, old(SlotRow(p.sel)), old(Snap(p)), now, rand)
    {
      if terminate || now >= reshuffleTime {
        Tick(now);
        verdict := RoundOver;
      } else if requests == [] {
        Tick(now);
        verdict := Waiting;
      } else {
        verdict := ResolveClaim(now, rand);
      }
    }

    /** updateTimerDisplay(false): only the display changes, the countdown does not. */
    method Tick(now: int)
      requires Valid()
      modifies this`reshuffleTime
      ensures Valid() && reshuffleTime == old(reshuffleTime)
    {
      var _ := UpdateTimerDisplay(false, now);
    }

    /** The part of the state that resolving `p`'s claim may change. */
    ghost function Snap(p: Player): Snapshot
      reads this`deck, this`cardsOnTable, this`reshuffleTime, table.slotToCard, setToRemove
      reads p`score, p`penalizedTime, players`sel
    {
      Snapshot(table.slotToCard[..], deck, Sels(), p.score, p.penalizedTime, cardsOnTable, setToRemove[..], reshuffleTime)
    }

    /**
     * That part of the state after resolving `p`'s claim on `slots` with verdict `v`, from
     * `s` before it. A point credits and freezes the claimant, marks the claimed slots,
     * lifts them from every selection, empties them and deals the gaps from the deck, puts
     * the cards out and restarts the timer. A penalty only freezes the claimant. A dropped
     * claim changes none of it.
     */
    ghost function Resolved(v: Verdict, p: Player, slots: seq<int>, s: Snapshot, now: int, rand: seq<real>): Snapshot
      requires |s.table| == |rand| && Unit(rand)
    {
      match v
      case Awarded(_) =>
        var d := Deal(RemoveSlots(s.table, slots), s.deck, rand);
        Snapshot(d.table, d.deck, seq(|s.sels|, j requires 0 <= j < |s.sels| => ClearSlots(s.sels[j], slots)),
                 s.score + 1, p.pointFreezeMillis, true, slots, now + turnTimeoutMillis)
      case Penalized(_) => s.(frozen := p.penaltyFreezeMillis)
      case _ => s
    }

    /**
     * The claim at the head of the queue (timerLoop, Dealer.java:111-151). The claim is
     * read from its player's setArray now: if one of its slots was emptied meanwhile it is
     * dropped; otherwise a legal set earns a point, its cards leave the table, the gaps are
     * refilled and the turn timer restarts, and an illegal one earns a penalty. Either way
     * the player's pending presses are discarded and it may claim again.
     */
    method ResolveClaim(now: int, rand: seq<real>) returns (verdict: Verdict)
      requires Valid() && requests != []
      requires |rand| == table.slotToCard.Length && Unit(rand)
      modifies this`requests, this`reshuffleTime, this`deck, this`cardsOnTable, this`discarded
      modifies setToRemove, table.slotToCard, arrays, playerSet`sel, playerSet`usedTokens
      modifies Claimant()`score, Claimant()`penalizedTime, Claimant()`incomingActions, Claimant()`checkingSet
      ensures Valid()
      ensures requests == old(requests)[1..]
      ensures var pid := old(requests)[0]; var claim := old(players[pid].sel);
        && verdict == (if Stale(claim) then Dropped(pid)
                       else if testSet(CardRow(claim)) then Awarded(pid)
                       else Penalized(pid))
        && players[pid].incomingActions == [] && !players[pid].checkingSet
      ensures var p := players[old(requests)[0]];
        Snap(p) == Resolved(verdict, p, old(SlotRow(p.sel)), old(Snap(p)), now, rand)
    {
      var playerId := requests[0];
      var p := players[playerId];
      var cards, slots := TakeClaim();
      verdict := Settle(p, cards, slots, now, rand);
    }

    /** The claim of `p`, read and dequeued, is judged; then `p` may claim again. */
    method Settle(p: Player, cards: seq<int>, slots: seq<int>, now: int, rand: seq<real>) returns (verdict: Verdict)
      requires Consistent() && Has(p) && PendingBut(p.id)
      requires cards == CardRow(p.sel) && slots == SlotRow(p.sel)
      requires |rand| == table.slotToCard.Length && Unit(rand)
      modifies this`reshuffleTime, this`deck, this`cardsOnTable, this`discarded
      modifies setToRemove, table.slotToCard, arrays, playerSet`sel, playerSet`usedTokens
      modifies p`score, p`penalizedTime, p`incomingActions, p`checkingSet
      ensures Valid() && p.incomingActions == [] && !p.checkingSet
      ensures verdict == if Empty in slots then Dropped(p.id) else if testSet(cards) then Awarded(p.id) else Penalized(p.id)
      ensures Snap(p) == Resolved(verdict, p, slots, old(Snap(p)), now, rand)
    {
      verdict := Judge(p, cards, slots, now, rand);
      Release(p);
    }

    /**
     * The verdict on a claim read out of `p`'s setArray: dropped when one of its slots was
     * emptied, awarded when the cards form a legal set, penalized otherwise.
     */
    method Judge(p: Player, cards: seq<int>, slots: seq<int>, now: int, rand: seq<real>) returns (verdict: Verdict)
      requires Consistent() && Has(p)
      requires cards == CardRow(p.sel) && slots == SlotRow(p.sel)
      requires |rand| == table.slotToCard.Length && Unit(rand)
      modifies this`reshuffleTime, this`deck, this`cardsOnTable, this`discarded
      modifies setToRemove, table.slotToCard, arrays, playerSet`sel, playerSet`usedTokens
      modifies p`score, p`penalizedTime, p`incomingActions
      ensures Consistent() && p.incomingActions == []
      ensures verdict == if Empty in slots then Dropped(p.id) else if testSet(cards) then Awarded(p.id) else Penalized(p.id)
      ensures Snap(p) == Resolved(verdict, p, slots, old(Snap(p)), now, rand)
    {
      var cardIsOnTable := AllOnTable(slots);
      var isSet := testSet(cards);
      if isSet && cardIsOnTable {
        Award(p, slots, now, rand);
      } else {
        Reject(p, cardIsOnTable, now);
      }
      verdict := if !cardIsOnTable then Dropped(p.id)
                 else if isSet then Awarded(p.id)
                 else Penalized(p.id);
    }

    /**
     * The head of the queue is read out of its player's setArray (rows 0 and 1) and
     * removed from the queue.
     */
    method TakeClaim() returns (cards: seq<int>, slots: seq<int>)
      requires Valid() && requests != []
      modifies this`requests
      ensures Consistent() && requests == old(requests)[1..] && PendingBut(old(requests)[0])
      ensures var p := players[old(requests)[0]]; cards == CardRow(p.sel) && slots == SlotRow(p.sel)
    {
      var p := players[requests[0]];
      p.RowsAreSel();
      cards := [p.setArray[0, 0], p.setArray[0, 1], p.setArray[0, 2]];
      slots := [p.setArray[1, 0], p.setArray[1, 1], p.setArray[1, 2]];
      Dequeue();
    }

    /** The check in timerLoop that no slot of the claim was emptied since it was queued. */
    method AllOnTable(slots: seq<int>) returns (cardIsOnTable: bool)
      requires |slots| == 3
      ensures cardIsOnTable <==> Empty !in slots
    {
      cardIsOnTable := true;
      for i := 0 to 3
        invariant cardIsOnTable <==> forall k :: 0 <= k < i ==> slots[k] != Empty
      {
        if slots[i] == Empty {
          cardIsOnTable := false;
        }
      }
    }

    /** The player whose claim is at the head of the queue, if a claim is queued. */
    ghost function Queued(): set<Player>
      requires Wired() && Pending()
      reads this`requests, playerSet`checkingSet
    {
      if requests == [] then {} else {Claimant()}
    }

    /** The player whose claim is at the head of the queue. */
    ghost function Claimant(): Player
      requires Wired() && Pending() && requests != []
      reads this`requests, playerSet`checkingSet
    {
      players[requests[0]]
    }

    /** Every player but `pid` has at most one queued claim and checks a set exactly while it has one; `pid` has none queued. */
    ghost predicate PendingBut(pid: nat)
      requires Wired()
      reads this`requests, playerSet`checkingSet
    {
      && (forall a :: 0 <= a < |requests| ==> requests[a] < |players| && requests[a] != pid)
      && (forall a, b :: 0 <= a < b < |requests| ==> requests[a] != requests[b])
      && (forall i :: 0 <= i < |players| && i != pid ==> (players[i].checkingSet <==> i in requests))
    }

    /** requests.remove: the oldest claim leaves the queue. */
    method Dequeue()
      requires Wired() && Pending() && requests != []
      modifies this`requests
      ensures requests == old(requests)[1..] && PendingBut(old(requests)[0])
    {
      requests := requests[1..];
    }

    /** The end of a claim: its player may claim again (checkingSet = false). */
    method Release(p: Player)
      requires Consistent() && Has(p) && PendingBut(p.id)
      modifies p`checkingSet
      ensures Valid() && !p.checkingSet
      ensures Snap(p) == old(Snap(p)) && p.incomingActions == old(p.incomingActions)
    {
      p.checkingSet := false;
    }

    /** incomingActions.clear() on player `p`, under the dealer's lock. */
    method DropPresses(p: Player)
      requires Consistent() && Has(p)
      modifies p`incomingActions
      ensures Consistent() && p.incomingActions == []
    {
      p.incomingActions := [];
    }

    /** The legal claim on `slots`: point, then its cards are replaced and the turn timer restarts. */
    method Award(p: Player, slots: seq<int>, now: int, rand: seq<real>)
      requires Consistent() && Has(p) && slots == SlotRow(p.sel) && Empty !in slots
      requires |rand| == table.slotToCard.Length && Unit(rand)
      modifies p`score, p`penalizedTime, p`incomingActions, setToRemove, this`reshuffleTime
      modifies this`deck, this`cardsOnTable, this`discarded, table.slotToCard
      modifies playerSet`sel, playerSet`usedTokens, arrays
      ensures Consistent() && p.incomingActions == [] && p.usedTokens == 0
      ensures Snap(p) == Resolved(Awarded(p.id), p, slots, old(Snap(p)), now, rand)
    {
      ghost var claim, s0 := p.sel, Snap(p);
      Score(p, slots);
      Replace(now, rand);
      ClearOwnClaim(claim);
      AwardedState(p, slots, s0, now, rand);
    }

    /** The fields a point changes, each as `Resolved` has them, make up its whole result. */
    lemma AwardedState(p: Player, slots: seq<int>, s: Snapshot, now: int, rand: seq<real>)
      requires |s.table| == |rand| && Unit(rand) && |s.sels| == |players|
      requires p.score == s.score + 1 && p.penalizedTime == p.pointFreezeMillis
      requires cardsOnTable && setToRemove[..] == slots && reshuffleTime == now + turnTimeoutMillis
      requires Dealt(table.slotToCard[..], deck) == Deal(RemoveSlots(s.table, slots), s.deck, rand)
      requires forall j :: 0 <= j < |players| ==> players[j].sel == ClearSlots(s.sels[j], slots)
      ensures Snap(p) == Resolved(Awarded(p.id), p, slots, s, now, rand)
    {
      assert Sels() == seq(|s.sels|, j requires 0 <= j < |s.sels| => ClearSlots(s.sels[j], slots));
    }

    /** The point for the legal claim on `slots`, whose slots become setToRemove. */
    method Score(p: Player, slots: seq<int>)
      requires Consistent() && Has(p) && slots == SlotRow(p.sel) && Empty !in slots
      modifies p`score, p`penalizedTime, p`incomingActions, setToRemove
      ensures Consistent()
      ensures p.score == old(p.score) + 1 && p.penalizedTime == p.pointFreezeMillis && p.incomingActions == []
      ensures setToRemove[..] == slots
      ensures forall g :: 0 <= g < 3 ==> 0 <= setToRemove[g] < table.slotToCard.Length
    {
      ClaimInRange(p.sel, table.slotToCard[..]);
      Credit(p);
      MarkForRemoval(slots);
      DropPresses(p);
    }

    /** players[id].point(), under the dealer's invariant. */
    method Credit(p: Player)
      requires Consistent() && Has(p)
      modifies p`score, p`penalizedTime
      ensures Consistent() && p.score == old(p.score) + 1 && p.penalizedTime == p.pointFreezeMillis
    {
      p.Point();
    }

    /** The loop of timerLoop at Dealer.java:130-132: the claim's slots become setToRemove. */
    method MarkForRemoval(slots: seq<int>)
      requires Wired() && |slots| == 3
      modifies setToRemove
      ensures setToRemove[..] == slots
    {
      for g := 0 to 3
        invariant forall k :: 0 <= k < g ==> setToRemove[k] == slots[k]
      {
        setToRemove[g] := slots[g];
      }
      assert setToRemove[..] == slots;
    }

    /** The cards of setToRemove leave the table, the gaps are refilled, and the turn timer restarts. */
    method Replace(now: int, rand: seq<real>)
      requires Consistent() && |rand| == table.slotToCard.Length && Unit(rand)
      requires forall g :: 0 <= g < 3 ==> 0 <= setToRemove[g] < table.slotToCard.Length
      modifies this`reshuffleTime, this`deck, this`cardsOnTable, this`discarded, table.slotToCard
      modifies playerSet`sel, playerSet`usedTokens, arrays
      ensures Consistent() && cardsOnTable
      ensures reshuffleTime == now + turnTimeoutMillis
      ensures Dealt(table.slotToCard[..], deck) == Deal(RemoveSlots(old(table.slotToCard[..]), setToRemove[..]), old(deck), rand)
      ensures forall j :: 0 <= j < |players| ==> players[j].sel == ClearSlots(old(players[j].sel), setToRemove[..])
    {
      Restart(now);
      Refill(rand);
    }

    /** removeCardsFromTable, then placeCardsOnTable. */
    method Refill(rand: seq<real>)
      requires Consistent() && |rand| == table.slotToCard.Length && Unit(rand)
      requires forall g :: 0 <= g < 3 ==> 0 <= setToRemove[g] < table.slotToCard.Length
      modifies this`deck, this`cardsOnTable, this`discarded, table.slotToCard
      modifies playerSet`sel, playerSet`usedTokens, arrays
      ensures Consistent() && cardsOnTable
      ensures Dealt(table.slotToCard[..], deck) == Deal(RemoveSlots(old(table.slotToCard[..]), setToRemove[..]), old(deck), rand)
      ensures forall j :: 0 <= j < |players| ==> players[j].sel == ClearSlots(old(players[j].sel), setToRemove[..])
    {
      RemoveCardsFromTable();
      PlaceCardsOnTable(rand);
    }

    /** updateTimerDisplay(true): the turn timer restarts at `now`. */
    method Restart(now: int)
      requires Consistent()
      modifies this`reshuffleTime
      ensures Consistent() && reshuffleTime == now + turnTimeoutMillis
    {
      var _ := UpdateTimerDisplay(true, now);
    }

    /** The claim that earns no point: a penalty when its cards are still on the table. */
    method Reject(p: Player, onTable: bool, now: int)
      requires Consistent() && Has(p)
      modifies p`penalizedTime, p`incomingActions, this`reshuffleTime
      ensures Consistent() && p.incomingActions == []
      ensures Snap(p) == old(Snap(p)).(frozen := if onTable then p.penaltyFreezeMillis else old(p.penalizedTime))
    {
      if onTable {
        p.Penalty();
      }
      DropPresses(p);
      var _ := UpdateTimerDisplay(false, now);
    }

    /**
     * announceWinners: the highest score, searched from -1, and the ids of every player
     * holding it, in id order.
     */
    method AnnounceWinners() returns (winners: seq<nat>)
      requires forall j :: 0 <= j < |players| ==> players[j].id == j
      ensures winners == Scores.Winners(ScoreBoard())
    {
      ghost var board := ScoreBoard();
      var maxPoints := -1;
      for i := 0 to |players|
        invariant maxPoints == Scores.Best(board[..i])
      {
        assert board[..i + 1][..i] == board[..i] && board[i] == players[i].score;
        if players[i].score > maxPoints {
          maxPoints := players[i].score;
        }
      }
      assert board[..|players|] == board;
      var winnersList: seq<nat> := [];
      for i := 0 to |players|
        invariant winnersList == Scores.Holding(board, maxPoints, i)
      {
        assert board[i] == players[i].score;
        if players[i].score == maxPoints {
          winnersList := winnersList + [players[i].id];
        }
      }
      winners := winnersList;
    }

    /**
     * In a consistent game every score is at least 0, so the players announceWinners
     * names are exactly those nobody outscores, each once and in id order, and there is
     * one as soon as there is a player.
     */
    lemma WinnersLead()
      requires Consistent()
      ensures var board := ScoreBoard();
        && (forall k :: k in Scores.Winners(board) <==> Scores.Leads(board, k))
        && (forall a, b :: 0 <= a < b < |Scores.Winners(board)| ==> Scores.Winners(board)[a] < Scores.Winners(board)[b])
        && (|players| > 0 ==> Scores.Winners(board) != [])
    {
      var board := ScoreBoard();
      forall k | 0 <= k < |board|
        ensures board[k] >= 0
      {
        assert players[k].Current();
      }
      Scores.WinnersAreLeaders(board);
    }
}
}
