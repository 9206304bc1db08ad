/**
 * The memory-match engine: a shuffled deck of sixteen cards, eight symbols twice each, and a
 * two-click protocol that turns up cards, keeps equal pairs as matched and turns an unequal
 * pair back down once a deferred step runs.
 */
module Memory {

  import opened Wrappers

  /** The eight symbols; the deck holds each of them twice. */
  const CardValues: seq<string> := [
    "\U{1F40D}", "\U{2602}\U{FE0F}", "\U{1F355}", "\U{1F334}",
    "\U{1F697}", "\U{1F951}", "\U{1F3A9}", "\U{1F43A}"
  ]

  /** A card: its position in the unshuffled deck and its symbol. */
  datatype Card = Card(id: nat, value: string)

  /** The unshuffled deck: the symbols, then the symbols again, numbered from 0. */
  function FreshDeck(): (d: seq<Card>)
    ensures |d| == 2 * |CardValues|
    ensures forall i :: 0 <= i < |d| ==> d[i] == Card(i, CardValues[i % |CardValues|])
  {
    var values := CardValues + CardValues;
    seq(|values|, i requires 0 <= i < |values| => Card(i, values[i]))
  }

  /** Number of cards of `d` showing `v`. */
  function CountValue(d: seq<Card>, v: string): nat {
    if d == [] then 0 else (if d[0].value == v then 1 else 0) + CountValue(d[1..], v)
  }

  /** Valid choices for the shuffle of `n` cards: at step `i` the swap partner is in 0..i. */
  predicate ValidPicks(picks: seq<nat>, n: nat) {
    |picks| == n && forall i :: 0 <= i < |picks| ==> picks[i] <= i
  }

  /**
   * Fisher-Yates shuffle of a copy of `arr`: from the last position down to 1, swap position
   * `i` with position `picks[i]`, the random choice in 0..i. The argument is a value and is
   * left as it was; the result holds the same cards.
   */
  method Shuffle(arr: seq<Card>, picks: seq<nat>) returns (r: seq<Card>)
    requires ValidPicks(picks, |arr|)
    ensures |r| == |arr| && multiset(r) == multiset(arr)
  {
    var a := new Card[|arr|](k requires 0 <= k < |arr| => arr[k]);
    assert a[..] == arr;
    var i := a.Length - 1;
    while i > 0
      invariant -1 <= i < a.Length
      invariant multiset(a[..]) == multiset(arr)
    {
      var j := picks[i];
      a[i], a[j] := a[j], a[i];
      i := i - 1;
    }
    r := a[..];
  }

  lemma CardValuesDistinct()
    ensures |CardValues| == 8 && Distinct(CardValues)
  {
  }

  lemma {:induction false} CountValueAppend(a: seq<Card>, b: seq<Card>, v: string)
    ensures CountValue(a + b, v) == CountValue(a, v) + CountValue(b, v)
  {
    if a == [] {
      assert a + b == b;
    } else {
      assert (a + b)[1..] == a[1..] + b;
      CountValueAppend(a[1..], b, v);
    }
  }

  /** In a deck whose cards show pairwise different symbols, a symbol shows once or not at all. */
  lemma {:induction false} CountValueOnce(d: seq<Card>, v: string)
    requires forall i, j :: 0 <= i < j < |d| ==> d[i].value != d[j].value
    ensures CountValue(d, v) == if exists i :: 0 <= i < |d| && d[i].value == v then 1 else 0
  {
    if d != [] {
      CountValueOnce(d[1..], v);
      if d[0].value == v {
        forall i | 0 <= i < |d| - 1 ensures d[1..][i].value != v {
          assert d[1..][i] == d[i + 1];
        }
      }
      if exists i :: 0 <= i < |d| && d[i].value == v {
        var i :| 0 <= i < |d| && d[i].value == v;
        if i > 0 {
          assert d[1..][i - 1] == d[i];
        }
      }
      if exists i :: 0 <= i < |d| - 1 && d[1..][i].value == v {
        var i :| 0 <= i < |d| - 1 && d[1..][i].value == v;
        assert d[i + 1] == d[1..][i];
      }
    }
  }

  /** The unshuffled deck: sixteen cards, card `i` has id `i`, each symbol twice, no other symbol. */
  lemma FreshDeckShape()
    ensures |FreshDeck()| == 16
    ensures forall i :: 0 <= i < 16 ==> FreshDeck()[i].id == i
    ensures Distinct(FreshDeck())
    ensures forall v :: CountValue(FreshDeck(), v) == if v in CardValues then 2 else 0
  {
    var d := FreshDeck();
    CardValuesDistinct();
    assert d == d[..8] + d[8..];
    forall v ensures CountValue(d, v) == if v in CardValues then 2 else 0 {
      CountValueAppend(d[..8], d[8..], v);
      forall i, j | 0 <= i < j < 8 ensures d[..8][i].value != d[..8][j].value {
        assert d[..8][i].value == CardValues[i] && d[..8][j].value == CardValues[j];
      }
      forall i, j | 0 <= i < j < 8 ensures d[8..][i].value != d[8..][j].value {
        assert d[8..][i].value == CardValues[i] && d[8..][j].value == CardValues[j];
      }
      CountValueOnce(d[..8], v);
      CountValueOnce(d[8..], v);
      if v in CardValues {
        var k :| 0 <= k < 8 && CardValues[k] == v;
        assert d[..8][k].value == v && d[8..][k].value == v;
      } else {
        forall i | 0 <= i < 8 ensures d[..8][i].value != v && d[8..][i].value != v {
          assert d[..8][i].value == CardValues[i] && d[8..][i].value == CardValues[i];
        }
      }
    }
  }

  /** Taking the card at position `k` out of a deck, as a multiset and as a symbol count. */
  lemma RemoveCard(b: seq<Card>, k: int, v: string)
    requires 0 <= k < |b|
    ensures multiset(b[..k] + b[k + 1..]) == multiset(b) - multiset{b[k]}
    ensures CountValue(b, v) == CountValue(b[..k] + b[k + 1..], v) + (if b[k].value == v then 1 else 0)
  {
    assert b == b[..k] + [b[k]] + b[k + 1..];
    CountValueAppend(b[..k] + [b[k]], b[k + 1..], v);
    CountValueAppend(b[..k], [b[k]], v);
    CountValueAppend(b[..k], b[k + 1..], v);
  }

  /** Reordering a deck does not change how often a symbol shows. */
  lemma {:induction false} CountValuePermutation(a: seq<Card>, b: seq<Card>, v: string)
    requires multiset(a) == multiset(b)
    ensures CountValue(a, v) == CountValue(b, v)
    decreases |a|
  {
    if a == [] {
      assert |b| == |multiset(b)| == 0;
    } else {
      var x := a[0];
      assert x in multiset(b);
      var k :| 0 <= k < |b| && b[k] == x;
      RemoveCard(b, k, v);
      assert a == [x] + a[1..];
      assert multiset(a[1..]) == multiset(a) - multiset{x};
      CountValuePermutation(a[1..], b[..k] + b[k + 1..], v);
    }
  }

  /** A sequence in which some element sits at two positions counts it at least twice. */
  lemma RepeatedCard(d: seq<Card>, i: int, j: int)
    requires 0 <= i < j < |d| && d[i] == d[j]
    ensures multiset(d)[d[i]] >= 2
  {
    assert d == d[..j] + [d[j]] + d[j + 1..];
    assert d[i] in multiset(d[..j]);
  }

  /** Cards that are pairwise different each occur once. */
  lemma {:induction false} DistinctOnce(d: seq<Card>, c: Card)
    requires Distinct(d)
    ensures multiset(d)[c] <= 1
  {
    if d != [] {
      assert d == [d[0]] + d[1..];
      DistinctOnce(d[1..], c);
      if d[0] == c {
        assert c !in d[1..];
      }
    }
  }

  /** Every card of a dealt deck is the card of the unshuffled deck with the same id. */
  lemma DealtCard(d: seq<Card>, i: int)
    requires multiset(d) == multiset(FreshDeck()) && 0 <= i < |d|
    ensures d[i].id < 16 && d[i].value in CardValues && d[i] == FreshDeck()[d[i].id]
  {
    var f := FreshDeck();
    assert d[i] in multiset(f);
    var k :| 0 <= k < |f| && f[k] == d[i];
    assert f[k].value == (CardValues + CardValues)[k];
  }

  /**
   * A dealt deck (any reordering of the unshuffled one) has sixteen cards with ids 0..15, one
   * card per id, symbols from the alphabet, each symbol exactly twice.
   */
  lemma DealtDeckShape(d: seq<Card>)
    requires multiset(d) == multiset(FreshDeck())
    ensures |d| == 16
    ensures forall i :: 0 <= i < 16 ==> d[i].id < 16 && d[i].value in CardValues
    ensures forall i, j :: 0 <= i < j < 16 ==> d[i].id != d[j].id
    ensures forall v :: CountValue(d, v) == if v in CardValues then 2 else 0
  {
    FreshDeckShape();
    var f := FreshDeck();
    assert |d| == |multiset(d)| == |multiset(f)| == 16;
    forall i | 0 <= i < 16 ensures d[i].id < 16 && d[i].value in CardValues {
      DealtCard(d, i);
    }
    forall i, j | 0 <= i < j < 16 ensures d[i].id != d[j].id {
      if d[i].id == d[j].id {
        DealtCard(d, i);
        DealtCard(d, j);
        RepeatedCard(d, i, j);
        DistinctOnce(f, d[i]);
      }
    }
    forall v ensures CountValue(d, v) == if v in CardValues then 2 else 0 {
      CountValuePermutation(d, f, v);
    }
  }

  function Elements(s: seq<string>): set<string> {
    set x | x in s
  }

  lemma {:induction false} DistinctElements(s: seq<string>)
    requires Distinct(s)
    ensures |Elements(s)| == |s|
  {
    if s != [] {
      DistinctElements(s[1..]);
      assert Elements(s) == {s[0]} + Elements(s[1..]);
      assert s[0] !in Elements(s[1..]);
    }
  }

  /**
   * A list of matched symbols without repeats, drawn from the alphabet, has at most eight
   * entries, and has eight exactly when every symbol is in it.
   */
  lemma MatchedBound(matched: seq<string>)
    requires Distinct(matched) && forall v :: v in matched ==> v in CardValues
    ensures |matched| <= |CardValues|
    ensures |matched| == |CardValues| <==> forall v :: v in CardValues ==> v in matched
  {
    CardValuesDistinct();
    DistinctElements(matched);
    DistinctElements(CardValues);
    var m, all := Elements(matched), Elements(CardValues);
    assert m <= all;
    assert all == m + (all - m) && m * (all - m) == {};
    if |matched| == |CardValues| {
      assert |all - m| == 0;
      assert all - m == {};
      forall v | v in CardValues ensures v in matched {
        assert v in all;
      }
    }
    if forall v :: v in CardValues ==> v in matched {
      assert all <= m;
      assert m == all;
    }
  }

  /** The state of one memory game. */
  class MemoryGame {
    var deck: seq<Card>
    /** Deck positions of the face-up, unmatched cards. */
    var flipped: seq<nat>
    /** Symbols whose pair has been found, in the order found. */
    var matched: seq<string>
    var moves: nat
    var busy: bool
    /** Deferred turn-back steps scheduled and not yet run. */
    ghost var pending: nat

    ghost predicate Valid()
      reads this
    {
      multiset(deck) == multiset(FreshDeck()) && |deck| == 16 &&
      |flipped| <= 2 &&
      (forall k :: 0 <= k < |flipped| ==> flipped[k] < |deck| && deck[flipped[k]].value !in matched) &&
      (|flipped| == 2 ==> flipped[0] != flipped[1] && deck[flipped[0]].value != deck[flipped[1]].value) &&
      (busy <==> |flipped| == 2) && (busy ==> pending > 0) &&
      Distinct(matched) && (forall v :: v in matched ==> v in CardValues)
    }

    /** The game after its first render: a dealt deck and nothing turned up. */
    constructor (picks: seq<nat>)
      requires ValidPicks(picks, 16)
      ensures Valid()
      ensures flipped == [] && matched == [] && moves == 0 && !busy && pending == 0
    {
      FreshDeckShape();
      var cards := Shuffle(FreshDeck(), picks);
      deck := cards;
      flipped := [];
      matched := [];
      moves := 0;
      busy := false;
      pending := 0;
    }

    /**
     * A new deal. Turn-back steps already scheduled stay scheduled: a restart during the
     * display of a mismatch does not cancel its deferred step.
     */
    method Restart(picks: seq<nat>)
      requires ValidPicks(picks, 16)
      modifies this
      ensures Valid()
      ensures flipped == [] && matched == [] && moves == 0 && !busy && pending == old(pending)
    {
      FreshDeckShape();
      var cards := Shuffle(FreshDeck(), picks);
      deck := cards;
      flipped := [];
      matched := [];
      moves := 0;
      busy := false;
    }

    /** A click on the card at deck position `idx`. */
    method HandleClick(idx: nat)
      requires Valid() && idx < |deck|
      modifies this
      ensures Valid() && deck == old(deck)
      // locked, already face up, or already matched: nothing happens
      ensures old(busy || idx in flipped || deck[idx].value in matched) ==> unchanged(this)
      // first card of a pair
      ensures old(!busy && idx !in flipped && deck[idx].value !in matched && |flipped| == 0) ==>
        flipped == [idx] && moves == old(moves) && matched == old(matched) && !busy &&
        pending == old(pending)
      // second card, same symbol: one move, the symbol is matched, nothing stays face up
      ensures old(!busy && idx !in flipped && deck[idx].value !in matched && |flipped| == 1 &&
                  deck[flipped[0]].value == deck[idx].value) ==>
        moves == old(moves) + 1 && matched == old(matched) + [deck[idx].value] &&
        flipped == [] && !busy && pending == old(pending)
      // second card, other symbol: one move, both stay up, locked until the deferred step
      ensures old(!busy && idx !in flipped && deck[idx].value !in matched && |flipped| == 1 &&
                  deck[flipped[0]].value != deck[idx].value) ==>
        moves == old(moves) + 1 && matched == old(matched) &&
        flipped == [old(flipped[0]), idx] && busy && pending == old(pending) + 1
    {
      if busy || idx in flipped || deck[idx].value in matched {
        return;
      }
      if |flipped| == 0 {
        flipped := [idx];
      } else if |flipped| == 1 {
        var first := flipped[0];
        flipped := [first, idx];
        moves := moves + 1;
        if deck[first].value == deck[idx].value {
          DealtDeckShape(deck);
          matched := matched + [deck[idx].value];
          flipped := [];
        } else {
          busy := true;
          pending := pending + 1;
        }
      }
    }

    /** The deferred step scheduled by a mismatch: turn the cards back down and unlock. */
    method FinishMismatch()
      requires Valid() && pending > 0
      modifies this`flipped, this`busy, this`pending
      ensures Valid()
      ensures flipped == [] && !busy && pending == old(pending) - 1
    {
      flipped := [];
      busy := false;
      pending := pending - 1;
    }

    /** The game is won when as many symbols are matched as there are symbols. */
    function IsWon(): (won: bool)
      reads this
      requires Valid()
      ensures won <==> forall v :: v in CardValues ==> v in matched
    {
      MatchedBound(matched);
      |matched| == |CardValues|
    }
  }

  /**
   * A restart while a mismatch is on display leaves its deferred step scheduled; when that
   * step runs it turns down the first card of the new game's next pair.
   */
  method StaleTurnBack(g: MemoryGame, picks: seq<nat>, idx: nat) returns (selected: seq<nat>)
    requires g.Valid() && g.busy && ValidPicks(picks, 16) && idx < 16
    modifies g
    ensures selected == [idx] && g.flipped == [] && g.Valid()
  {
    g.Restart(picks);
    g.HandleClick(idx);
    selected := g.flipped;
    g.FinishMismatch();
  }
}
