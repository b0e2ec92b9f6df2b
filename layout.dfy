/**
 * The card layout of the table and the dealer's deck, as values.
 *
 * A table is the sequence `slotToCard`: entry `s` is the card on slot `s`, or `Empty`.
 * A deck is the list of card ids not yet dealt. The dealer's initial deck is
 * `Range(deckSize)`, every card id exactly once.
 */
module Layout {

  /** What an empty slot, or an unused cell of a player's setArray, holds. */
  const Empty := -1

  /** The full deck the dealer starts with: 0, 1, ..., n - 1. */
  function Range(n: nat): (r: seq<int>)
    ensures |r| == n
    ensures forall k :: 0 <= k < n ==> r[k] == k
  {
    seq(n, k => k)
  }

  /** The card held by one slot, as a list: nothing when the slot is `Empty`. */
  function Cell(c: int): seq<int>
  {
    if c == Empty then [] else [c]
  }

  /** The cards lying on table `t`, in slot order. */
  function OnTable(t: seq<int>): seq<int>
  {
    if t == [] then [] else Cell(t[0]) + OnTable(t[1..])
  }

  /** The table with the given slots emptied (each slot removed by removeCard). */
  function RemoveSlots(t: seq<int>, slots: seq<int>): seq<int>
  {
    seq(|t|, k requires 0 <= k < |t| => if k in slots then Empty else t[k])
  }

  /** The number of empty slots of `t`. */
  function EmptySlots(t: seq<int>): nat
  {
    if t == [] then 0 else (if t[0] == Empty then 1 else 0) + EmptySlots(t[1..])
  }

  /** Table `t` with its first `i` slots emptied, as removeAllCardsFromTable leaves it midway. */
  function EmptiedUpTo(t: seq<int>, i: nat): seq<int>
  {
    seq(|t|, k requires 0 <= k < |t| => if k < i then Empty else t[k])
  }

  /** Removing no slot leaves the table as it is. */
  lemma RemoveNoSlots(t: seq<int>)
    ensures RemoveSlots(t, []) == t
  {
    assert RemoveSlots(t, []) == t;
  }

  /** Removing one more slot `s` empties it; removing a slot that is no slot changes nothing. */
  lemma RemoveSlotsStep(t: seq<int>, slots: seq<int>, s: int)
    ensures 0 <= s < |t| ==> RemoveSlots(t, slots)[s := Empty] == RemoveSlots(t, slots + [s])
    ensures !(0 <= s < |t|) ==> RemoveSlots(t, slots) == RemoveSlots(t, slots + [s])
  {
    if 0 <= s < |t| {
      assert RemoveSlots(t, slots)[s := Empty] == RemoveSlots(t, slots + [s]);
    } else {
      assert RemoveSlots(t, slots) == RemoveSlots(t, slots + [s]);
    }
  }

  /** Emptying slot `i` of a table whose first `i` slots are emptied empties `i + 1` of them. */
  lemma EmptiedStep(t: seq<int>, i: nat)
    requires i < |t|
    ensures EmptiedUpTo(t, i)[i] == t[i]
    ensures EmptiedUpTo(t, i)[i := Empty] == EmptiedUpTo(t, i + 1)
    ensures t[i] == Empty ==> EmptiedUpTo(t, i) == EmptiedUpTo(t, i + 1)
  {
    assert EmptiedUpTo(t, i)[i := Empty] == EmptiedUpTo(t, i + 1);
  }

  /** Every cell of `t` is empty. */
  predicate Cleared(t: seq<int>)
  {
    forall k :: 0 <= k < |t| ==> t[k] == Empty
  }

  // ---------------------------------------------------------------------------
  // Cards on the table

  /** Putting card `c` on slot `i` trades the card that was there for `c`. */
  lemma {:induction false} OnTableUpdate(t: seq<int>, i: nat, c: int)
    requires i < |t|
    ensures multiset(OnTable(t[i := c])) + multiset(Cell(t[i]))
         == multiset(OnTable(t)) + multiset(Cell(c))
  {
    var u := t[i := c];
    if i == 0 {
      assert u[1..] == t[1..];
    } else {
      var r := t[1..];
      assert u[1..] == r[i - 1 := c];
      assert u[0] == t[0] && r[i - 1] == t[i];
      OnTableUpdate(r, i - 1, c);
      calc {
        multiset(OnTable(u)) + multiset(Cell(t[i]));
        multiset(Cell(t[0])) + (multiset(OnTable(r[i - 1 := c])) + multiset(Cell(r[i - 1])));
        multiset(Cell(t[0])) + (multiset(OnTable(r)) + multiset(Cell(c)));
        multiset(OnTable(t)) + multiset(Cell(c));
      }
    }
  }

  /** Reading the slots up to `i + 1` adds the card on slot `i`, if any, at the end. */
  lemma {:induction false} OnTablePrefix(t: seq<int>, i: nat)
    requires i < |t|
    ensures OnTable(t[..i + 1]) == OnTable(t[..i]) + Cell(t[i])
  {
    if i == 0 {
      assert t[..1][1..] == [];
    } else {
      assert t[..i + 1][1..] == t[1..][..i];
      assert t[..i][1..] == t[1..][..i - 1];
      OnTablePrefix(t[1..], i - 1);
    }
  }

  /** Every occupied slot contributes its card; there are as many cards as occupied slots. */
  lemma {:induction false} OnTableCounts(t: seq<int>)
    ensures |OnTable(t)| + EmptySlots(t) == |t|
    ensures Empty !in OnTable(t)
  {
    if t != [] {
      OnTableCounts(t[1..]);
    }
  }

  /** The card on an occupied slot is among the cards on the table. */
  lemma {:induction false} OnTableHas(t: seq<int>, i: nat)
    requires i < |t| && t[i] != Empty
    ensures multiset(OnTable(t))[t[i]] >= 1
  {
    if i > 0 {
      assert t[1..][i - 1] == t[i];
      OnTableHas(t[1..], i - 1);
    }
  }

  /** A card lying on two slots is counted twice. */
  lemma {:induction false} OnTableTwice(t: seq<int>, i: nat, j: nat)
    requires i < j < |t| && t[i] == t[j] != Empty
    ensures multiset(OnTable(t))[t[i]] >= 2
  {
    var c := t[i];
    assert t[1..][j - 1] == c;
    assert multiset(OnTable(t)) == multiset(Cell(t[0])) + multiset(OnTable(t[1..]));
    if i == 0 {
      OnTableHas(t[1..], j - 1);
      assert multiset(Cell(t[0]))[c] == 1;
    } else {
      assert t[1..][i - 1] == c;
      OnTableTwice(t[1..], i - 1, j - 1);
    }
  }

  /** An empty table holds no cards. */
  lemma {:induction false} ClearedHoldsNothing(t: seq<int>)
    requires Cleared(t)
    ensures OnTable(t) == []
  {
    if t != [] {
      ClearedHoldsNothing(t[1..]);
    }
  }

  /** Each card id occurs once in the full deck, and only ids below n occur. */
  lemma {:induction false} RangeOnce(n: nat, c: int)
    ensures multiset(Range(n))[c] == if 0 <= c < n then 1 else 0
  {
    if n > 0 {
      assert Range(n) == Range(n - 1) + [n - 1];
      RangeOnce(n - 1, c);
    } else {
      assert Range(n) == [];
    }
  }

  /**
   * When the deck, the table and the discarded cards together are exactly the full
   * deck, no card lies on two slots and every card on the table or in the deck is a
   * real card id.
   */
  lemma CardsAccountedFor(deck: seq<int>, t: seq<int>, gone: multiset<int>, n: nat)
    requires multiset(deck) + multiset(OnTable(t)) + gone == multiset(Range(n))
    ensures forall i, j :: 0 <= i < j < |t| && t[i] != Empty ==> t[i] != t[j]
    ensures forall i :: 0 <= i < |t| && t[i] != Empty ==> 0 <= t[i] < n
    ensures forall c :: c in deck ==> 0 <= c < n
  {
    forall c | c in deck
      ensures 0 <= c < n
    {
      RangeOnce(n, c);
    }
    forall i, j | 0 <= i < j < |t| && t[i] != Empty
      ensures t[i] != t[j]
    {
      if t[i] == t[j] {
        OnTableTwice(t, i, j);
        RangeOnce(n, t[i]);
        assert false;
      }
    }
    forall i | 0 <= i < |t| && t[i] != Empty
      ensures 0 <= t[i] < n
    {
      OnTableHas(t, i);
      RangeOnce(n, t[i]);
    }
  }

  /**
   * Emptying slot `s` and counting its card among the discarded cards keeps every card
   * accounted for.
   */
  lemma DiscardSlot(deck: seq<int>, t: seq<int>, gone: multiset<int>, n: nat, s: nat)
    requires s < |t|
    requires multiset(deck) + multiset(OnTable(t)) + gone == multiset(Range(n))
    ensures multiset(deck) + multiset(OnTable(t[s := Empty])) + (gone + multiset(Cell(t[s])))
         == multiset(Range(n))
  {
    OnTableUpdate(t, s, Empty);
    assert Cell(Empty) == [];
    calc {
      multiset(deck) + multiset(OnTable(t[s := Empty])) + (gone + multiset(Cell(t[s])));
      multiset(deck) + (multiset(OnTable(t[s := Empty])) + multiset(Cell(t[s]))) + gone;
      multiset(deck) + multiset(OnTable(t)) + gone;
    }
  }

  /**
   * Emptying slot `i` and putting its card at the end of the deck keeps every card
   * accounted for.
   */
  lemma ReturnSlot(deck: seq<int>, t: seq<int>, gone: multiset<int>, n: nat, i: nat)
    requires i < |t|
    requires multiset(deck) + multiset(OnTable(t)) + gone == multiset(Range(n))
    ensures multiset(deck + Cell(t[i])) + multiset(OnTable(t[i := Empty])) + gone
         == multiset(Range(n))
  {
    OnTableUpdate(t, i, Empty);
    assert Cell(Empty) == [];
    calc {
      multiset(deck + Cell(t[i])) + multiset(OnTable(t[i := Empty])) + gone;
      multiset(deck) + (multiset(OnTable(t[i := Empty])) + multiset(Cell(t[i]))) + gone;
      multiset(deck) + multiset(OnTable(t)) + gone;
    }
  }

  // ---------------------------------------------------------------------------
  // Dealing (placeCardsOnTable)

  /** A value drawn by Math.random(). */
  predicate Unit(rand: seq<real>)
  {
    forall k :: 0 <= k < |rand| ==> 0.0 <= rand[k] < 1.0
  }

  /** `(int) (r * size)`: the deck index chosen by random draw `r`. */
  function Pick(r: real, size: nat): (k: nat)
    requires 0.0 <= r < 1.0 && size > 0
    ensures k < size
  {
    ScaledBelow(r, size);
    (r * size as real).Floor
  }

  /** A draw in [0, 1) scaled by `size` lies in [0, size). */
  lemma ScaledBelow(r: real, size: nat)
    requires 0.0 <= r < 1.0 && size > 0
    ensures 0.0 <= r * size as real < size as real
  {
    assert (1.0 - r) * (size as real) > 0.0;
  }

  datatype Dealt = Dealt(table: seq<int>, deck: seq<int>)

  /**
   * One pass of the loop of placeCardsOnTable, at slot `i` with random draw `r`: an
   * empty slot, while the deck is not empty, receives the card at index
   * Pick(r, |deck|), which leaves the deck; otherwise nothing changes.
   */
  function DealStep(t: seq<int>, deck: seq<int>, r: real, i: nat): Dealt
    requires i < |t| && 0.0 <= r < 1.0
  {
    if deck != [] && t[i] == Empty then
      var k := Pick(r, |deck|);
      Dealt(t[i := deck[k]], deck[..k] + deck[k + 1..])
    else Dealt(t, deck)
  }

  /** The loop of placeCardsOnTable from slot `i` on, slot `k` using draw `rand[k]`. */
  function DealFrom(t: seq<int>, deck: seq<int>, rand: seq<real>, i: nat): Dealt
    requires i <= |t| == |rand| && Unit(rand)
    decreases |t| - i
  {
    if i == |t| then Dealt(t, deck)
    else
      var d := DealStep(t, deck, rand[i], i);
      DealFrom(d.table, d.deck, rand, i + 1)
  }

  function Deal(t: seq<int>, deck: seq<int>, rand: seq<real>): Dealt
    requires |t| == |rand| && Unit(rand)
  {
    DealFrom(t, deck, rand, 0)
  }

  /** Moving the card at deck index `k` onto the empty slot `i`. */
  lemma TakeCard(t: seq<int>, deck: seq<int>, i: nat, k: nat)
    requires i < |t| && t[i] == Empty && k < |deck| && Empty !in deck
    ensures var rest, u := deck[..k] + deck[k + 1..], t[i := deck[k]];
      && multiset(rest) + multiset(OnTable(u)) == multiset(deck) + multiset(OnTable(t))
      && |OnTable(u)| == |OnTable(t)| + 1
      && Empty !in rest
  {
    var c, rest := deck[k], deck[..k] + deck[k + 1..];
    assert deck == deck[..k] + [c] + deck[k + 1..];
    assert Cell(c) == [c];
    assert multiset(deck) == multiset(rest) + multiset(Cell(c));
    OnTableUpdate(t, i, c);
    assert multiset(OnTable(t[i := c])) == multiset(OnTable(t)) + multiset(Cell(c));
    assert |multiset(OnTable(t[i := c]))| == |multiset(OnTable(t))| + 1;
  }

  /**
   * Dealing moves cards from the deck to the table and loses none: the deck and the
   * table hold the same cards before and after, and the deck shrinks by exactly the
   * number of cards that arrived on the table.
   */
  lemma {:induction false} DealMovesCards(t: seq<int>, deck: seq<int>, rand: seq<real>, i: nat)
    requires i <= |t| == |rand| && Unit(rand)
    requires Empty !in deck
    ensures var r := DealFrom(t, deck, rand, i);
      && multiset(r.deck) + multiset(OnTable(r.table)) == multiset(deck) + multiset(OnTable(t))
      && |deck| - |r.deck| == |OnTable(r.table)| - |OnTable(t)|
    decreases |t| - i
  {
    if i < |t| {
      if deck != [] && t[i] == Empty {
        var k := Pick(rand[i], |deck|);
        TakeCard(t, deck, i, k);
        DealMovesCards(t[i := deck[k]], deck[..k] + deck[k + 1..], rand, i + 1);
      } else {
        DealMovesCards(t, deck, rand, i + 1);
      }
    }
  }

  /**
   * Dealing leaves occupied slots (and the slots before `i`) as they were, and either
   * fills every empty slot from `i` on or empties the deck.
   */
  lemma {:induction false} DealFills(t: seq<int>, deck: seq<int>, rand: seq<real>, i: nat)
    requires i <= |t| == |rand| && Unit(rand)
    requires Empty !in deck
    ensures var r := DealFrom(t, deck, rand, i);
      && |r.table| == |t|
      && (forall k :: 0 <= k < |t| && (k < i || t[k] != Empty) ==> r.table[k] == t[k])
      && (r.deck == [] || forall k :: i <= k < |t| ==> r.table[k] != Empty)
      && (deck == [] ==> r.deck == [] && r.table == t)
    decreases |t| - i
  {
    if i < |t| {
      if deck != [] && t[i] == Empty {
        var k := Pick(rand[i], |deck|);
        assert deck == deck[..k] + [deck[k]] + deck[k + 1..];
        DealFills(t[i := deck[k]], deck[..k] + deck[k + 1..], rand, i + 1);
      } else {
        DealFills(t, deck, rand, i + 1);
      }
    }
  }

  /** A table with no empty slot counts none. */
  lemma {:induction false} NoEmptySlots(t: seq<int>)
    requires forall k :: 0 <= k < |t| ==> t[k] != Empty
    ensures EmptySlots(t) == 0
  {
    if t != [] {
      assert forall k :: 0 <= k < |t[1..]| ==> t[1..][k] == t[k + 1];
      NoEmptySlots(t[1..]);
    }
  }

  /**
   * Dealing draws one card per empty slot, or the whole deck when it holds fewer cards
   * than there are gaps; the gaps left are the ones the deck could not fill.
   */
  lemma DealCount(t: seq<int>, deck: seq<int>, rand: seq<real>)
    requires |t| == |rand| && Unit(rand)
    requires Empty !in deck
    ensures var r := Deal(t, deck, rand);
      && |deck| - |r.deck| == (if |deck| < EmptySlots(t) then |deck| else EmptySlots(t))
      && EmptySlots(r.table) == (if |deck| < EmptySlots(t) then EmptySlots(t) - |deck| else 0)
  {
    var r := Deal(t, deck, rand);
    DealMovesCards(t, deck, rand, 0);
    DealFills(t, deck, rand, 0);
    OnTableCounts(t);
    OnTableCounts(r.table);
    if r.deck != [] {
      NoEmptySlots(r.table);
    }
  }
}
