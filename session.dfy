/**
 * The study session: a shuffled copy of the loaded cards, a card index and a
 * reveal step, driven card by card through English, Pinyin and Character.
 */
module Session {
  import Cards
  import Shuffle

  /** The reveal step of the card on screen. */
  datatype Step = English | Pinyin | Character

  /** A point of the two-dimensional state: card index and reveal step. */
  datatype Position = Position(current: int, step: Step)

  /** How far into a card the step is: 0, 1 or 2. */
  function Ord(s: Step): nat {
    match s
    case English => 0
    case Pinyin => 1
    case Character => 2
  }

  /**
   * The place of a position in the linear walk over all `3 * n` positions;
   * `Advance` and `Retreat` are characterised by it.
   */
  function Rank(p: Position): int {
    3 * p.current + Ord(p.step)
  }

  /** The position at place `k` of the walk. */
  function AtRank(k: nat): Position {
    Position(k / 3, if k % 3 == 0 then English else if k % 3 == 1 then Pinyin else Character)
  }

  /** The card index designates one of the `n` cards. */
  predicate InRange(n: int, p: Position) {
    0 <= p.current < n
  }

  /** The first position of a session and the last one. */
  function First(): Position { Position(0, English) }
  function Last(n: int): Position { Position(n - 1, Character) }

  lemma RankRoundTrip(k: nat, p: Position)
    requires p.current >= 0
    ensures Rank(AtRank(k)) == k
    ensures AtRank(Rank(p)) == p
  {
  }

  /**
   * `nextStep` on a session of `n` cards: one place further along the walk,
   * except at the last step of the last card, where it stays put.
   */
  function Advance(n: int, p: Position): (r: Position)
    ensures InRange(n, p) ==> InRange(n, r)
    ensures InRange(n, p) ==> Rank(r) == if Rank(p) < 3 * n - 1 then Rank(p) + 1 else Rank(p)
    ensures InRange(n, p) ==> (r == p <==> p == Last(n))
  {
    match p.step
    case English => Position(p.current, Pinyin)
    case Pinyin => Position(p.current, Character)
    case Character => if p.current < n - 1 then Position(p.current + 1, English) else p
  }

  /**
   * `prevStep`: one place back along the walk, except at the first step of
   * the first card, where it stays put.
   */
  function Retreat(n: int, p: Position): (r: Position)
    ensures InRange(n, p) ==> InRange(n, r)
    ensures p.current >= 0 ==> Rank(r) == if Rank(p) > 0 then Rank(p) - 1 else Rank(p)
    ensures p.current >= 0 ==> (r == p <==> p == First())
  {
    match p.step
    case Character => Position(p.current, Pinyin)
    case Pinyin => Position(p.current, English)
    case English => if p.current > 0 then Position(p.current - 1, Character) else p
  }

  /** Stepping back undoes a step forward that moved. */
  lemma RetreatUndoesAdvance(n: int, p: Position)
    requires InRange(n, p) && p != Last(n)
    ensures Retreat(n, Advance(n, p)) == p
  {
    RankRoundTrip(Rank(p), Retreat(n, Advance(n, p)));
  }

  /** Stepping forward undoes a step back that moved. */
  lemma AdvanceUndoesRetreat(n: int, p: Position)
    requires InRange(n, p) && p != First()
    ensures Advance(n, Retreat(n, p)) == p
  {
    RankRoundTrip(Rank(p), Advance(n, Retreat(n, p)));
  }

  /** `k` presses of Next in a row. */
  function AdvanceTimes(n: int, p: Position, k: nat): Position
    decreases k
  {
    if k == 0 then p else AdvanceTimes(n, Advance(n, p), k - 1)
  }

  function Min(a: int, b: int): int { if a <= b then a else b }

  /** `k` presses of Next go `k` places along the walk, stopping at its end. */
  lemma {:induction false} AdvanceTimesRank(n: int, p: Position, k: nat)
    requires InRange(n, p)
    ensures InRange(n, AdvanceTimes(n, p, k))
    ensures Rank(AdvanceTimes(n, p, k)) == Min(Rank(p) + k, 3 * n - 1)
    decreases k
  {
    if k > 0 {
      AdvanceTimesRank(n, Advance(n, p), k - 1);
    }
  }

  /** From the start, `k` presses reach place `k` of the walk, or its end. */
  lemma AdvanceTimesFromFirst(n: int, k: nat)
    requires n > 0
    ensures AdvanceTimes(n, First(), k) == AtRank(Min(k, 3 * n - 1))
  {
    AdvanceTimesRank(n, First(), k);
    RankRoundTrip(Min(k, 3 * n - 1), AdvanceTimes(n, First(), k));
  }

  /**
   * Two presses reveal Pinyin and then Character of the first card; a third
   * moves to the second card when there is one and otherwise changes nothing.
   */
  lemma FirstCardCycle(n: int)
    requires n > 0
    ensures AdvanceTimes(n, First(), 1) == Position(0, Pinyin)
    ensures AdvanceTimes(n, First(), 2) == Position(0, Character)
    ensures AdvanceTimes(n, First(), 3) == if n > 1 then Position(1, English) else Position(0, Character)
  {
    AdvanceTimesFromFirst(n, 1);
    AdvanceTimesFromFirst(n, 2);
    AdvanceTimesFromFirst(n, 3);
  }

  /** Two cards: seven presses reach the end, and an eighth is a no-op. */
  lemma TwoCardScenario()
    ensures AdvanceTimes(2, First(), 7) == Position(1, Character)
    ensures AdvanceTimes(2, First(), 8) == Position(1, Character)
  {
    AdvanceTimesFromFirst(2, 7);
    AdvanceTimesFromFirst(2, 8);
  }

  /** The session page's state. */
  class StudySession {
    var cards: seq<Cards.Card>
    var current: int
    var step: Step

    /** A card is on screen: the list is non-empty and the index points into it. */
    ghost predicate Valid()
      reads this
    {
      0 <= current < |cards|
    }

    function State(): Position
      reads this
    {
      Position(current, step)
    }

    /**
     * A session over the loaded cards: shuffled once with the draws `js`,
     * starting on the first card with only English shown.
     */
    constructor (loaded: seq<Cards.Card>, js: seq<nat>)
      requires |loaded| > 0 && Shuffle.ValidChoices(loaded, js)
      ensures Valid() && State() == First()
      ensures cards == Shuffle.Shuffled(loaded, js)
      ensures multiset(cards) == multiset(loaded)
    {
      var order := Shuffle.ShuffleArray(loaded, js);
      cards := order;
      current := 0;
      step := English;
    }

    /** `nextStep`. */
    method NextStep()
      requires Valid()
      modifies this
      ensures Valid() && cards == old(cards)
      ensures State() == Advance(|cards|, old(State()))
    {
      if step == English {
        step := Pinyin;
      } else if step == Pinyin {
        step := Character;
      } else {
        if current < |cards| - 1 {
          step := English;
          current := current + 1;
        }
      }
    }

    /** `prevStep`. */
    method PrevStep()
      requires Valid()
      modifies this
      ensures Valid() && cards == old(cards)
      ensures State() == Retreat(|cards|, old(State()))
    {
      if step == Character {
        step := Pinyin;
      } else if step == Pinyin {
        step := English;
      } else {
        if current > 0 {
          current := current - 1;
          step := Character;
        }
      }
    }

    /** The card on screen. */
    function Card(): (c: Cards.Card)
      reads this
      requires Valid()
      ensures c in cards
    {
      cards[current]
    }

    /** Reveal is cumulative: Pinyin is shown once the step has reached it. */
    predicate PinyinShown()
      reads this
      ensures PinyinShown() <==> Ord(step) >= Ord(Pinyin)
    {
      step != English
    }

    /** Character is shown at the last step only, and never without Pinyin. */
    predicate CharacterShown()
      reads this
      ensures CharacterShown() <==> Ord(step) >= Ord(Character)
      ensures CharacterShown() ==> PinyinShown()
    {
      step == Character
    }

    /** The Back button is shown exactly where `prevStep` would move. */
    predicate BackShown()
      reads this
      ensures BackShown() <==> Retreat(|cards|, State()) != State()
    {
      current > 0 || step != English
    }

    /** The Next button is shown exactly where `nextStep` would move. */
    predicate NextShown()
      reads this
      requires Valid()
      ensures NextShown() <==> Advance(|cards|, State()) != State()
    {
      !(current == |cards| - 1 && step == Character)
    }
  }
}
