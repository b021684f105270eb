/**
 Cards and hands (server/src/gameLogic.js and the `handTotal` of
 server/src/utils.js). A hand maps a card type 0..8 to how many copies the
 player holds; an absent type means zero copies.
 */
module Hands {
  import opened Basics

  /** Number of card types and copies of each type in a full deck; four
      copies of one type also make a set. */
  const TypeCount: nat := 9
  const Copies: nat := 4

  type CardType = t: int | 0 <= t < 9

  type Hand = map<CardType, nat>

  /** How many copies of `t` the hand holds (the source's `get(t) || 0`). */
  function Count(h: Hand, t: CardType): nat
  {
    if t in h then h[t] else 0
  }

  /** The hand keeps no zero entry: absence means zero. */
  predicate Positive(h: Hand)
  {
    forall t :: t in h ==> h[t] > 0
  }

  /* The per-type recursions below name the hand in their termination
     measure as well: the solver then unfolds them only on demand instead of
     unrolling all nine types wherever a literal start type appears. */
  function SumFrom(h: Hand, t: nat): nat
    decreases TypeCount - t, h
  {
    if t >= TypeCount then 0 else Count(h, t) + SumFrom(h, t + 1)
  }

  lemma {:induction false} SumFromFacts(h: Hand, t: nat)
    ensures forall u: CardType :: t <= u ==> Count(h, u) <= SumFrom(h, t)
    ensures SumFrom(h, t) == 0 <==> forall u: CardType :: t <= u ==> Count(h, u) == 0
    decreases TypeCount - t
  {
    if t < TypeCount {
      SumFromFacts(h, t + 1);
    }
  }

  /** `handTotal`: the number of cards in the hand. Since every key is a card
      type, summing the nine counts sums the map's values. */
  function HandTotal(h: Hand): (r: nat)
    ensures forall t: CardType :: Count(h, t) <= r
    ensures r == 0 <==> forall t: CardType :: Count(h, t) == 0
  {
    SumFromFacts(h, 0);
    SumFrom(h, 0)
  }

  /** The sum of the map's values in an arbitrary key order, as the source's
      loop over `values()` computes it. */
  ghost function ValuesSum(h: Hand): nat
    decreases |h|
  {
    if |h| == 0 then 0
    else
      var k :| k in h;
      assert |h - {k}| == |h| - 1 by { assert (h - {k}).Keys == h.Keys - {k}; }
      h[k] + ValuesSum(h - {k})
  }

  lemma {:induction false} SumFromRemove(h: Hand, k: CardType, t: nat)
    requires k in h
    ensures SumFrom(h, t) == (if t <= k then h[k] else 0) + SumFrom(h - {k}, t)
    decreases TypeCount - t
  {
    if t < TypeCount {
      SumFromRemove(h, k, t + 1);
    }
  }

  /* handTotal is the sum of the map's values, whatever order they are
     visited in; in particular it is 0 for the empty hand. */
  lemma {:induction false} HandTotalIsSumOfValues(h: Hand)
    ensures HandTotal(h) == ValuesSum(h)
    decreases |h|
  {
    if |h| == 0 {
      assert forall t: CardType :: t !in h;
      assert HandTotal(h) == 0;
    } else {
      var k :| k in h && ValuesSum(h) == h[k] + ValuesSum(h - {k});
      assert |h - {k}| == |h| - 1 by { assert (h - {k}).Keys == h.Keys - {k}; }
      SumFromRemove(h, k, 0);
      HandTotalIsSumOfValues(h - {k});
    }
  }

  /* If two hands differ only at type t, their totals differ by the same
     amount as their counts of t. */
  lemma {:induction false} SumFromChange(h1: Hand, h2: Hand, t: CardType, s: nat)
    requires forall u: CardType :: u != t ==> Count(h1, u) == Count(h2, u)
    ensures SumFrom(h2, s) + (if s <= t then Count(h1, t) else 0)
         == SumFrom(h1, s) + (if s <= t then Count(h2, t) else 0)
    decreases TypeCount - s
  {
    if s < TypeCount {
      SumFromChange(h1, h2, t, s + 1);
    }
  }

  lemma HandTotalChange(h1: Hand, h2: Hand, t: CardType)
    requires forall u: CardType :: u != t ==> Count(h1, u) == Count(h2, u)
    ensures HandTotal(h2) + Count(h1, t) == HandTotal(h1) + Count(h2, t)
  {
    SumFromChange(h1, h2, t, 0);
  }

  lemma {:induction false} SumFromSplit(h: Hand, h1: Hand, h2: Hand, t: nat)
    requires forall u: CardType :: Count(h, u) == Count(h1, u) + Count(h2, u)
    ensures SumFrom(h, t) == SumFrom(h1, t) + SumFrom(h2, t)
    decreases TypeCount - t
  {
    if t < TypeCount {
      SumFromSplit(h, h1, h2, t + 1);
    }
  }

  /* A hand whose counts are the sums of two others' holds as many cards as
     the two together. */
  lemma HandTotalSplit(h: Hand, h1: Hand, h2: Hand)
    requires forall u: CardType :: Count(h, u) == Count(h1, u) + Count(h2, u)
    ensures HandTotal(h) == HandTotal(h1) + HandTotal(h2)
  {
    SumFromSplit(h, h1, h2, 0);
  }

  /** `addToHand`: n more copies of t. */
  function AddToHand(h: Hand, t: CardType, n: nat): (r: Hand)
    ensures Count(r, t) == Count(h, t) + n
    ensures forall u: CardType :: u != t ==> Count(r, u) == Count(h, u)
    ensures r.Keys == h.Keys + {t}
    ensures HandTotal(r) == HandTotal(h) + n
    ensures Positive(h) && n > 0 ==> Positive(r)
  {
    var r := h[t := Count(h, t) + n];
    HandTotalChange(h, r, t);
    r
  }

  /** What `removeAllOfType` leaves and returns. */
  datatype Removal = Removal(hand: Hand, removed: nat)

  /** `removeAllOfType`: every copy of t leaves the hand. The entry is deleted
      only when it held a positive count. */
  function RemoveAllOfType(h: Hand, t: CardType): (r: Removal)
    ensures r.removed == Count(h, t)
    ensures Count(r.hand, t) == 0
    ensures forall u: CardType :: u != t ==> Count(r.hand, u) == Count(h, u)
    ensures r.removed > 0 ==> r.hand == h - {t}
    ensures r.removed == 0 ==> r.hand == h
    ensures HandTotal(r.hand) + r.removed == HandTotal(h)
    ensures Positive(h) ==> Positive(r.hand)
  {
    var n := Count(h, t);
    if n > 0 then
      HandTotalChange(h, h - {t}, t);
      Removal(h - {t}, n)
    else
      Removal(h, 0)
  }

  function SetsFrom(h: Hand, t: nat): nat
    decreases TypeCount - t, h
  {
    if t >= TypeCount then 0 else Count(h, t) / Copies + SetsFrom(h, t + 1)
  }

  /** How many complete groups of four the hand holds, over all types. */
  function SetsIn(h: Hand): nat
  {
    SetsFrom(h, 0)
  }

  /** The hand `checkSets` leaves: every type with four or more copies keeps
      only its remainder modulo four, and its entry is deleted when that
      remainder is zero; types with fewer than four copies are untouched. */
  function AfterSets(h: Hand): (r: Hand)
    ensures forall t: CardType :: Count(r, t) == Count(h, t) % Copies
    ensures forall t: CardType :: Count(r, t) < Copies
    ensures forall t: CardType :: t in r <==> t in h && (h[t] < Copies || h[t] % Copies != 0)
    ensures forall t: CardType :: Count(h, t) < Copies ==> Count(r, t) == Count(h, t)
    ensures Positive(h) ==> Positive(r)
  {
    map t | t in h && (h[t] < Copies || h[t] % Copies != 0) :: h[t] % Copies
  }

  lemma {:induction false} AfterSetsFrom(h: Hand, t: nat)
    ensures SumFrom(AfterSets(h), t) + Copies * SetsFrom(h, t) == SumFrom(h, t)
    decreases TypeCount - t
  {
    if t < TypeCount {
      AfterSetsFrom(h, t + 1);
      assert Count(h, t) == Copies * (Count(h, t) / Copies) + Count(h, t) % Copies;
    }
  }

  /* Set extraction removes exactly four cards per set found. */
  lemma AfterSetsTotal(h: Hand)
    ensures HandTotal(AfterSets(h)) + Copies * SetsIn(h) == HandTotal(h)
  {
    AfterSetsFrom(h, 0);
  }

  lemma {:induction false} NoSetsFrom(h: Hand, t: nat)
    requires forall u: CardType :: Count(h, u) < Copies
    ensures SetsFrom(h, t) == 0
    decreases TypeCount - t
  {
    if t < TypeCount {
      NoSetsFrom(h, t + 1);
    }
  }

  lemma {:induction false} SetsFromZero(h: Hand, t: nat)
    ensures SetsFrom(h, t) == 0 <==> forall u: CardType :: t <= u ==> Count(h, u) < Copies
    decreases TypeCount - t
  {
    if t < TypeCount {
      SetsFromZero(h, t + 1);
    }
  }

  /* A hand holds no set exactly when no type reaches four copies; such a
     hand is left as it is. */
  lemma SetsInZero(h: Hand)
    ensures SetsIn(h) == 0 <==> forall t: CardType :: Count(h, t) < Copies
    ensures SetsIn(h) == 0 ==> AfterSets(h) == h
  {
    SetsFromZero(h, 0);
    if SetsIn(h) == 0 {
      assert forall t :: t in h ==> h[t] == Count(h, t) < Copies;
      assert AfterSets(h).Keys == h.Keys;
    }
  }

  /* Extracting sets a second time finds none and changes nothing. */
  lemma AfterSetsIdempotent(h: Hand)
    ensures SetsIn(AfterSets(h)) == 0
    ensures AfterSets(AfterSets(h)) == AfterSets(h)
  {
    var a := AfterSets(h);
    NoSetsFrom(a, 0);
    var b := AfterSets(a);
    assert forall t :: t in b <==> t in a;
    assert forall t :: t in b ==> b[t] == a[t];
  }

  /** The per-type subtotals of `publicSets` after `checkSets`: each type with
      four or more copies in the hand gains its number of complete groups. */
  function AddSetsByType(byType: map<CardType, nat>, h: Hand): (r: map<CardType, nat>)
    ensures forall t: CardType :: Count(r, t) == Count(byType, t) + Count(h, t) / Copies
    ensures forall t: CardType :: t in r <==> t in byType || Count(h, t) >= Copies
  {
    map t: CardType | t in byType || Count(h, t) >= Copies :: Count(byType, t) + Count(h, t) / Copies
  }

  lemma {:induction false} AddSetsByTypeFrom(byType: map<CardType, nat>, h: Hand, t: nat)
    ensures SumFrom(AddSetsByType(byType, h), t) == SumFrom(byType, t) + SetsFrom(h, t)
    decreases TypeCount - t
  {
    if t < TypeCount {
      AddSetsByTypeFrom(byType, h, t + 1);
    }
  }

  /* The per-type subtotals grow in all by the number of sets found. */
  lemma AddSetsByTypeTotal(byType: map<CardType, nat>, h: Hand)
    ensures HandTotal(AddSetsByType(byType, h)) == HandTotal(byType) + SetsIn(h)
  {
    AddSetsByTypeFrom(byType, h, 0);
  }

  function CardsFrom(h: Hand, t: nat): seq<CardType>
    decreases TypeCount - t, h
  {
    if t >= TypeCount then [] else Repeat<CardType>(t, Count(h, t)) + CardsFrom(h, t + 1)
  }

  lemma {:induction false} CardsFromLength(h: Hand, t: nat)
    ensures |CardsFrom(h, t)| == SumFrom(h, t)
    decreases TypeCount - t
  {
    if t < TypeCount {
      CardsFromLength(h, t + 1);
    }
  }

  lemma {:induction false} CardsFromCount(h: Hand, t: nat, u: CardType)
    ensures multiset(CardsFrom(h, t))[u] == if t <= u then Count(h, u) else 0
    decreases TypeCount - t
  {
    if t < TypeCount {
      var rep: seq<CardType> := Repeat<CardType>(t, Count(h, t));
      var rest: seq<CardType> := CardsFrom(h, t + 1);
      CardsFromCount(h, t + 1, u);
      RepeatCount<CardType>(t, Count(h, t), u);
      assert multiset(rep + rest)[u] == multiset(rep)[u] + multiset(rest)[u];
    }
  }

  /** Every card of the hand as a sequence, type by type (the cards
      `removePlayer` pushes back onto the deck). */
  function HandCards(h: Hand): (r: seq<CardType>)
    ensures |r| == HandTotal(h)
    ensures forall t: CardType :: multiset(r)[t] == Count(h, t)
  {
    CardsFromLength(h, 0);
    forall u: CardType ensures multiset(CardsFrom(h, 0))[u] == Count(h, u) {
      CardsFromCount(h, 0, u);
    }
    CardsFrom(h, 0)
  }
}
