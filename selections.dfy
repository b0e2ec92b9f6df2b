/**
 * A player's selection: the first two rows of its 3x3 `setArray`, read column by column.
 * Column `k` holds a card id in row 0 and the slot that card lay on in row 1, or
 * `Empty` in both rows when the column is unused.
 */
module Selections {
  import opened Layout

  datatype Column = Column(card: int, slot: int)

  const FreeColumn := Column(Empty, Empty)

  /** The column records a token. */
  predicate Used(c: Column)
  {
    c.slot != Empty
  }

  /** The number of tokens recorded (what `usedTokens` must equal). */
  function Count(sel: seq<Column>): (n: nat)
    ensures n <= |sel|
  {
    if sel == [] then 0 else (if Used(sel[0]) then 1 else 0) + Count(sel[1..])
  }

  /** The slots that bear one of the player's tokens. */
  function Slots(sel: seq<Column>): set<int>
  {
    set k | 0 <= k < |sel| && Used(sel[k]) :: sel[k].slot
  }

  /**
   * The shape every selection keeps: three columns, a column's two rows are empty
   * together, and no slot is recorded twice.
   */
  ghost predicate WellFormed(sel: seq<Column>)
  {
    && |sel| == 3
    && (forall k :: 0 <= k < |sel| ==> (sel[k].card == Empty <==> sel[k].slot == Empty))
    && (forall k, l :: 0 <= k < l < |sel| && Used(sel[k]) ==> sel[k].slot != sel[l].slot)
  }

  /** The first column whose slot row holds `slot`, or |sel| when there is none. */
  function IndexOf(sel: seq<Column>, slot: int): (k: nat)
    ensures k <= |sel|
    ensures k < |sel| ==> sel[k].slot == slot
    ensures forall j :: 0 <= j < k ==> sel[j].slot != slot
  {
    if sel == [] then 0 else if sel[0].slot == slot then 0 else 1 + IndexOf(sel[1..], slot)
  }

  /** The first column whose card row is empty, or |sel| when there is none. */
  function FreeIndex(sel: seq<Column>): (k: nat)
    ensures k <= |sel|
    ensures k < |sel| ==> sel[k].card == Empty
    ensures forall j :: 0 <= j < k ==> sel[j].card != Empty
  {
    if sel == [] then 0 else if sel[0].card == Empty then 0 else 1 + FreeIndex(sel[1..])
  }

  /**
   * What actionFromQueue does to the selection when the pressed `slot` holds `card`
   * (`Empty` when the slot holds none): nothing on an empty slot; a recorded slot is
   * toggled off; otherwise, below three tokens, (card, slot) goes into the first free
   * column.
   */
  function Act(sel: seq<Column>, slot: int, card: int): seq<Column>
  {
    if card == Empty then sel
    else if IndexOf(sel, slot) < |sel| then sel[IndexOf(sel, slot) := FreeColumn]
    else if Count(sel) < 3 && FreeIndex(sel) < |sel| then sel[FreeIndex(sel) := Column(card, slot)]
    else sel
  }

  /** The action places the third token, so that the selection becomes a claim. */
  predicate Submits(sel: seq<Column>, slot: int, card: int)
  {
    && card != Empty && IndexOf(sel, slot) == |sel| && Count(sel) < 3
    && Count(Act(sel, slot, card)) == 3
  }

  /** The selection with every column that records one of `slots` cleared. */
  function ClearSlots(sel: seq<Column>, slots: seq<int>): seq<Column>
  {
    seq(|sel|, k requires 0 <= k < |sel| => if sel[k].slot in slots then FreeColumn else sel[k])
  }

  /** The three slots of a selection, as the dealer copies them into setToRemove. */
  function SlotRow(sel: seq<Column>): seq<int>
    requires |sel| == 3
  {
    [sel[0].slot, sel[1].slot, sel[2].slot]
  }

  /** The three cards of a selection, as the dealer hands them to testSet. */
  function CardRow(sel: seq<Column>): seq<int>
    requires |sel| == 3
  {
    [sel[0].card, sel[1].card, sel[2].card]
  }

  /** A claim is stale when one of its slots was cleared after it was submitted. */
  predicate Stale(sel: seq<Column>)
    requires |sel| == 3
  {
    Empty in SlotRow(sel)
  }

  /** Every recorded slot is a slot of table `t` that holds the card recorded with it. */
  ghost predicate Matches(sel: seq<Column>, t: seq<int>)
  {
    forall k :: 0 <= k < |sel| && Used(sel[k]) ==> 0 <= sel[k].slot < |t| && t[sel[k].slot] == sel[k].card
  }

  // ---------------------------------------------------------------------------
  // Lemmas

  /** Overwriting one column changes the token count by the difference it makes. */
  lemma {:induction false} CountUpdate(sel: seq<Column>, k: nat, c: Column)
    requires k < |sel|
    ensures Count(sel[k := c]) + (if Used(sel[k]) then 1 else 0)
         == Count(sel) + (if Used(c) then 1 else 0)
  {
    if k > 0 {
      assert sel[k := c][1..] == sel[1..][k - 1 := c];
      CountUpdate(sel[1..], k - 1, c);
    } else {
      assert sel[k := c][1..] == sel[1..];
    }
  }

  /** A selection without used columns counts no token. */
  lemma {:induction false} NothingRecorded(sel: seq<Column>)
    requires forall k :: 0 <= k < |sel| ==> !Used(sel[k])
    ensures Count(sel) == 0 && Slots(sel) == {}
  {
    if sel != [] {
      NothingRecorded(sel[1..]);
    }
  }

  /** Fewer tokens than columns leaves a free column. */
  lemma {:induction false} FreeColumnExists(sel: seq<Column>)
    requires forall k :: 0 <= k < |sel| ==> (sel[k].card == Empty <==> sel[k].slot == Empty)
    requires Count(sel) < |sel|
    ensures FreeIndex(sel) < |sel|
  {
    if Used(sel[0]) {
      FreeColumnExists(sel[1..]);
    }
  }

  /** For a real slot, being recorded is what IndexOf finds. */
  lemma RecordedAt(sel: seq<Column>, slot: int)
    requires slot != Empty
    ensures slot in Slots(sel) <==> IndexOf(sel, slot) < |sel|
  {
    if slot in Slots(sel) {
      var k :| 0 <= k < |sel| && Used(sel[k]) && sel[k].slot == slot;
      assert IndexOf(sel, slot) <= k;
    }
  }

  /**
   * Pressing a slot that bears the player's token removes that token: the slot leaves
   * the selection, the count drops by one and no claim is made.
   */
  lemma ActRemoves(sel: seq<Column>, slot: int, card: int)
    requires WellFormed(sel) && slot != Empty && card != Empty && slot in Slots(sel)
    ensures WellFormed(Act(sel, slot, card))
    ensures Slots(Act(sel, slot, card)) == Slots(sel) - {slot}
    ensures Count(Act(sel, slot, card)) == Count(sel) - 1
    ensures !Submits(sel, slot, card)
  {
    RecordedAt(sel, slot);
    var k := IndexOf(sel, slot);
    var r := Act(sel, slot, card);
    assert r == sel[k := FreeColumn];
    CountUpdate(sel, k, FreeColumn);
    forall s ensures s in Slots(r) <==> s in Slots(sel) - {slot} {
      if s in Slots(sel) - {slot} {
        var j :| 0 <= j < |sel| && Used(sel[j]) && sel[j].slot == s;
        assert r[j] == sel[j];
      }
    }
  }

  /**
   * Pressing an unrecorded slot with a card below three tokens places a token in the
   * first free column: the slot joins the selection, the count rises by one, and the
   * claim is made exactly when this was the third token.
   */
  lemma ActPlaces(sel: seq<Column>, slot: int, card: int)
    requires WellFormed(sel) && slot != Empty && card != Empty
    requires slot !in Slots(sel) && Count(sel) < 3
    ensures FreeIndex(sel) < 3
    ensures Act(sel, slot, card) == sel[FreeIndex(sel) := Column(card, slot)]
    ensures WellFormed(Act(sel, slot, card))
    ensures Slots(Act(sel, slot, card)) == Slots(sel) + {slot}
    ensures Count(Act(sel, slot, card)) == Count(sel) + 1
    ensures Submits(sel, slot, card) <==> Count(sel) == 2
  {
    RecordedAt(sel, slot);
    FreeColumnExists(sel);
    var k := FreeIndex(sel);
    var r := Act(sel, slot, card);
    assert r == sel[k := Column(card, slot)];
    CountUpdate(sel, k, Column(card, slot));
    assert r[k].slot == slot;
    forall s ensures s in Slots(r) <==> s in Slots(sel) + {slot} {
      if s in Slots(sel) {
        var j :| 0 <= j < |sel| && Used(sel[j]) && sel[j].slot == s;
        assert j != k;
        assert r[j] == sel[j];
      }
    }
  }

  /** Pressing an empty slot, or a new slot while three tokens are down, changes nothing. */
  lemma ActIgnores(sel: seq<Column>, slot: int, card: int)
    requires WellFormed(sel) && slot != Empty
    requires card == Empty || (slot !in Slots(sel) && Count(sel) == 3)
    ensures Act(sel, slot, card) == sel
    ensures !Submits(sel, slot, card)
  {
    RecordedAt(sel, slot);
  }

  /** Pressing the same slot twice returns the player's tokens to where they were. */
  lemma ToggleTwice(sel: seq<Column>, slot: int, card: int)
    requires WellFormed(sel) && slot != Empty && card != Empty
    ensures Slots(Act(Act(sel, slot, card), slot, card)) == Slots(sel)
  {
    var once := Act(sel, slot, card);
    if slot in Slots(sel) {
      ActRemoves(sel, slot, card);
      ActPlaces(once, slot, card);
    } else if Count(sel) == 3 {
      ActIgnores(sel, slot, card);
    } else {
      ActPlaces(sel, slot, card);
      ActRemoves(once, slot, card);
    }
  }

  /**
   * Clearing slots keeps the selection well formed, drops exactly those slots from it,
   * and removes one token per cleared column.
   */
  lemma ClearSlotsKeepsShape(sel: seq<Column>, slots: seq<int>)
    requires WellFormed(sel)
    ensures WellFormed(ClearSlots(sel, slots))
    ensures Slots(ClearSlots(sel, slots)) == Slots(sel) - set s | s in slots
  {
    var r := ClearSlots(sel, slots);
    forall s ensures s in Slots(r) <==> s in Slots(sel) - set s | s in slots {
      if s in Slots(sel) - set s | s in slots {
        var j :| 0 <= j < |sel| && Used(sel[j]) && sel[j].slot == s;
        assert r[j] == sel[j];
      }
    }
  }

  /** Clearing no slot leaves the selection as it is. */
  lemma ClearNoSlots(sel: seq<Column>)
    ensures ClearSlots(sel, []) == sel
  {
    assert ClearSlots(sel, []) == sel;
  }

  /** Clearing `slots` and then `s` clears `slots + [s]`. */
  lemma ClearSlotsStep(sel: seq<Column>, slots: seq<int>, s: int)
    ensures ClearSlots(ClearSlots(sel, slots), [s]) == ClearSlots(sel, slots + [s])
  {
  }

  /** A player whose whole claim is removed from the table is left with no token. */
  lemma ClearOwnClaim(sel: seq<Column>)
    requires WellFormed(sel)
    ensures Count(ClearSlots(sel, SlotRow(sel))) == 0
  {
    NothingRecorded(ClearSlots(sel, SlotRow(sel)));
  }

  /**
   * A press keeps the selection in step with the table: the card it records is the one
   * on the pressed slot, and the rest of the selection is untouched or cleared.
   */
  lemma ActMatches(sel: seq<Column>, t: seq<int>, slot: int)
    requires WellFormed(sel) && Matches(sel, t) && 0 <= slot < |t|
    ensures WellFormed(Act(sel, slot, t[slot])) && Matches(Act(sel, slot, t[slot]), t)
  {
    var card := t[slot];
    if card != Empty {
      RecordedAt(sel, slot);
      if slot in Slots(sel) {
        ActRemoves(sel, slot, card);
      } else if Count(sel) < 3 {
        ActPlaces(sel, slot, card);
      } else {
        ActIgnores(sel, slot, card);
      }
    }
  }

  /** Clearing columns keeps the selection in step with the table. */
  lemma ClearSlotsMatches(sel: seq<Column>, t: seq<int>, slots: seq<int>)
    requires Matches(sel, t)
    ensures Matches(ClearSlots(sel, slots), t)
  {
  }

  /**
   * A selection in step with a table stays in step with another table of the same size
   * that agrees with it on the slots the selection records.
   */
  lemma MatchesElsewhere(sel: seq<Column>, t: seq<int>, u: seq<int>)
    requires Matches(sel, t) && |u| == |t|
    requires forall s :: s in Slots(sel) ==> u[s] == t[s]
    ensures Matches(sel, u)
  {
    forall k | 0 <= k < |sel| && Used(sel[k])
      ensures u[sel[k].slot] == sel[k].card
    {
      assert sel[k].slot in Slots(sel);
    }
  }

  /** An empty slot is recorded by no well-formed selection in step with the table. */
  lemma EmptySlotUnrecorded(sel: seq<Column>, t: seq<int>, i: int)
    requires WellFormed(sel) && Matches(sel, t) && 0 <= i < |t| && t[i] == Empty
    ensures i !in Slots(sel)
  {
  }

  /** A claim none of whose slots is empty names three slots of the table it matches. */
  lemma ClaimInRange(sel: seq<Column>, t: seq<int>)
    requires WellFormed(sel) && Matches(sel, t) && Empty !in SlotRow(sel)
    ensures forall g :: 0 <= g < 3 ==> 0 <= SlotRow(sel)[g] < |t| && t[SlotRow(sel)[g]] == CardRow(sel)[g]
  {
    forall g | 0 <= g < 3
      ensures 0 <= SlotRow(sel)[g] < |t| && t[SlotRow(sel)[g]] == CardRow(sel)[g]
    {
      assert Used(sel[g]);
    }
  }
}
