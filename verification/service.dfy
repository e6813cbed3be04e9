/**
 * The growth engine: adding XP to one trait with the level-up loop, the
 * dispatch of user actions to XP awards, and the per-user store of growth
 * records with its get-or-create step.
 */
module GrowthService {
  import opened Options
  import opened Traits
  import opened Growth

  /** `xp >= requiredXP(level)`; nothing reaches `Infinity`. */
  predicate Reaches(xp: nat, required: Required)
  {
    required.Finite? && xp >= required.xp
  }

  /** The XP needed to climb from level `lo` to level `hi`. */
  function SumCost(lo: nat, hi: nat): nat
    requires lo <= hi
    decreases hi - lo
  {
    if lo == hi then 0 else Cost(lo) + SumCost(lo + 1, hi)
  }

  /** What the level-up loop leaves behind, stated without the loop: the
      level has not gone down, nor past the cap unless it started there;
      the XP spent is exactly the cost of the levels climbed; and what
      remains is not enough for the next level. */
  predicate IsSettled(level: nat, xp: nat, r: TraitState)
  {
    level <= r.level <= (if level < MaxLevel then MaxLevel else level)
    && xp == r.xp + SumCost(level, r.level)
    && (r.level < MaxLevel ==> r.xp < Cost(r.level))
  }

  /** The level-up loop: while the level is below the cap and the XP covers
      the current level's threshold, pay the threshold and go up a level. */
  function Settle(level: nat, xp: nat): (r: TraitState)
    ensures IsSettled(level, xp, r)
    decreases MaxLevel - level
  {
    if level < MaxLevel && Reaches(xp, RequiredXP(level)) then
      Settle(level + 1, xp - Cost(level))
    else
      TraitState(level, xp)
  }

  /** The loop's outcome is the only state meeting its description. */
  lemma {:induction false} SettleUnique(level: nat, xp: nat, r: TraitState)
    requires IsSettled(level, xp, r)
    ensures Settle(level, xp) == r
    decreases r.level - level
  {
    if r.level > level {
      assert xp == r.xp + Cost(level) + SumCost(level + 1, r.level);
      SettleUnique(level + 1, xp - Cost(level), r);
    }
  }

  /** At the cap the loop does nothing and XP simply accumulates. */
  lemma SettleAtCap(level: nat, xp: nat)
    requires level >= MaxLevel
    ensures Settle(level, xp) == TraitState(level, xp)
  {
  }

  lemma CostOf1() ensures Cost(1) == 140 { IsqrtUnique(1600, 40); }
  lemma CostOf2() ensures Cost(2) == 213 { assert Cube(2) == 8; IsqrtUnique(12800, 113); }
  lemma CostOf3() ensures Cost(3) == 307 { assert Cube(3) == 27; IsqrtUnique(43200, 207); }

  /** A trait at level 1 with no XP that gains 400 XP climbs two levels
      (140 + 213 XP) and keeps 47. */
  lemma SettleSample()
    ensures Settle(1, 400) == TraitState(3, 47)
  {
    CostOf1();
    CostOf2();
    CostOf3();
    assert SumCost(1, 3) == 353;
    SettleUnique(1, 400, TraitState(3, 47));
  }

  /** `s.slice(0, n)`. */
  function Take<T>(s: seq<T>, n: nat): (r: seq<T>)
    ensures |r| == if |s| < n then |s| else n
    ensures r == s[..|r|]
  {
    if |s| <= n then s else s[..n]
  }

  /** Truncating twice to the same length is truncating once. */
  lemma TakeAppendTake<T>(x: seq<T>, y: seq<T>, n: nat)
    ensures Take(x + Take(y, n), n) == Take(x + y, n)
  {
    var a, b := Take(x + Take(y, n), n), Take(x + y, n);
    assert |a| == |b|;
    forall i | 0 <= i < |a| ensures a[i] == b[i] {
      if i >= |x| {
        assert a[i] == Take(y, n)[i - |x|];
      }
    }
  }

  /** The recent-growth items announcing the given level-ups, newest (last)
      first. */
  function Announce(ks: seq<TraitKey>, at: int): (r: seq<GrowthEntry>)
    ensures |r| == |ks|
    ensures forall i :: 0 <= i < |ks| ==> r[i] == GrowthEntry(ks[|ks| - 1 - i], at)
  {
    if |ks| == 0 then []
    else [GrowthEntry(ks[|ks| - 1], at)] + Announce(ks[..|ks| - 1], at)
  }

  /** The recent-growth list after the given level-ups: unchanged when there
      are none, otherwise their items in front, newest first, cut to five. */
  function Announced(recent: seq<GrowthEntry>, ks: seq<TraitKey>, at: int): (r: seq<GrowthEntry>)
    ensures |ks| == 0 ==> r == recent
    ensures |ks| > 0 ==> |r| == Min(|recent| + |ks|, MaxRecentGrowth)
    ensures |ks| > 0 ==> r[0] == GrowthEntry(ks[|ks| - 1], at)
    ensures forall i :: 0 <= i < |r| ==>
              r[i] == if i < |ks| then GrowthEntry(ks[|ks| - 1 - i], at) else recent[i - |ks|]
    ensures |recent| <= MaxRecentGrowth ==> |r| <= MaxRecentGrowth
  {
    if |ks| == 0 then recent else Take(Announce(ks, at) + recent, MaxRecentGrowth)
  }

  function Min(a: nat, b: nat): nat
  {
    if a < b then a else b
  }

  /** Announcing a concatenation: the later level-ups come first. */
  lemma AnnounceConcat(x: seq<TraitKey>, y: seq<TraitKey>, at: int)
    ensures Announce(x + y, at) == Announce(y, at) + Announce(x, at)
  {
  }

  /** Announcing two batches one after the other is announcing them
      together. */
  lemma AnnouncedTwice(recent: seq<GrowthEntry>, x: seq<TraitKey>, y: seq<TraitKey>, at: int)
    ensures Announced(Announced(recent, x, at), y, at) == Announced(recent, x + y, at)
  {
    if |x| == 0 {
      assert x + y == y;
    } else if |y| == 0 {
      assert x + y == x;
    } else {
      var ax, ay := Announce(x, at), Announce(y, at);
      AnnounceConcat(x, y, at);
      TakeAppendTake(ay, ax + recent, MaxRecentGrowth);
      assert ay + (ax + recent) == Announce(x + y, at) + recent;
    }
  }

  /** The result of an award: the updated record and the traits that
      levelled up. */
  datatype Outcome = Outcome(growth: GrowthRecord, leveledUpTraits: seq<TraitKey>)

  /** The trait step of `applyTraitXP`: `amount` XP go to trait `key`, whose
      level (a zero level read as 1) then climbs as far as its XP allows; a
      level-up is announced once, newest first, in a list kept to five
      items. The derived fields are left for `Recompute`. */
  function Raise(g: GrowthRecord, key: TraitKey, amount: nat, at: int): (r: Outcome)
    ensures forall k: TraitKey :: k != key ==> r.growth.traits.Get(k) == g.traits.Get(k)
    ensures IsSettled(OrOne(g.traits.Get(key).level), g.traits.Get(key).xp + amount,
                      r.growth.traits.Get(key))
    ensures r.leveledUpTraits == if r.growth.traits.Get(key).level > OrOne(g.traits.Get(key).level) then [key] else []
    ensures r.growth.recentGrowth == Announced(g.recentGrowth, r.leveledUpTraits, at)
  {
    var t := g.traits.Get(key);
    var prev := OrOne(t.level);
    var s := Settle(prev, t.xp + amount);
    var ups := if s.level > prev then [key] else [];
    Outcome(g.(traits := g.traits.Set(key, s), recentGrowth := Announced(g.recentGrowth, ups, at)), ups)
  }

  /** Every level stays within bounds when XP is added. */
  lemma RaiseKeepsTraitsValid(g: GrowthRecord, key: TraitKey, amount: nat, at: int)
    requires forall k: TraitKey :: TraitValid(g.traits.Get(k))
    ensures forall k: TraitKey ::
              TraitValid(Raise(g, key, amount, at).growth.traits.Get(k))
              && Raise(g, key, amount, at).growth.traits.Get(k).level >= g.traits.Get(k).level
  {
    assert TraitValid(g.traits.Get(key));
  }

  /** `applyTraitXP` on the user's record: the trait step, then the derived
      fields recomputed. `at` is the current time. */
  method ApplyTraitXP(g: GrowthRecord, key: TraitKey, amount: nat, at: int) returns (r: Outcome)
    ensures forall k: TraitKey :: k != key ==> r.growth.traits.Get(k) == g.traits.Get(k)
    ensures IsSettled(OrOne(g.traits.Get(key).level), g.traits.Get(key).xp + amount,
                      r.growth.traits.Get(key))
    ensures r.leveledUpTraits == if r.growth.traits.Get(key).level > OrOne(g.traits.Get(key).level) then [key] else []
    ensures r.growth.recentGrowth == Announced(g.recentGrowth, r.leveledUpTraits, at)
    ensures DerivedFieldsAgree(r.growth)
    ensures Valid(g) ==> Valid(r.growth)
  {
    var raw := Raise(g, key, amount, at);
    if Valid(g) {
      RaiseKeepsTraitsValid(g, key, amount, at);
    }
    var derived := Recompute(raw.growth);
    r := Outcome(derived, raw.leveledUpTraits);
  }

  /** The position of the first occurrence of `x` in `s`. */
  function FirstIndex(s: seq<TraitKey>, x: TraitKey): (i: nat)
    requires x in s
    ensures i < |s| && s[i] == x && x !in s[..i]
    decreases |s|
  {
    if s[0] == x then 0
    else
      assert x in s[1..] by { var j :| 0 <= j < |s| && s[j] == x; assert s[1..][j - 1] == x; }
      var i := 1 + FirstIndex(s[1..], x);
      assert s[..i] == [s[0]] + s[1..][..i - 1];
      i
  }

  /** Only one position holds the first occurrence. */
  lemma FirstIndexUnique(s: seq<TraitKey>, x: TraitKey, k: nat)
    requires k < |s| && s[k] == x && x !in s[..k]
    ensures FirstIndex(s, x) == k
  {
    var f := FirstIndex(s, x);
    assert forall j :: 0 <= j < k ==> s[..k][j] == s[j];
    assert forall j :: 0 <= j < f ==> s[..f][j] == s[j];
  }

  /** Dropping the last element keeps the first occurrences of what is
      left, and the last element, when new, first occurs at the end. */
  lemma FirstIndexOfPrefix(s: seq<TraitKey>)
    requires |s| > 0
    ensures var p := s[..|s| - 1];
            forall x :: x in p ==> FirstIndex(s, x) == FirstIndex(p, x) < |p|
    ensures var p := s[..|s| - 1];
            s[|s| - 1] !in p ==> FirstIndex(s, s[|s| - 1]) == |p|
  {
    var p := s[..|s| - 1];
    forall x | x in p
      ensures FirstIndex(s, x) == FirstIndex(p, x) < |p|
    {
      var k := FirstIndex(p, x);
      assert s[..k] == p[..k];
      FirstIndexUnique(s, x, k);
    }
    if s[|s| - 1] !in p {
      assert s[..|p|] == p;
      FirstIndexUnique(s, s[|s| - 1], |p|);
    }
  }

  /** `[...new Set(s)]`: the first occurrence of each element, in the order
      of those occurrences. */
  function Dedup(s: seq<TraitKey>): (r: seq<TraitKey>)
    ensures forall x :: x in r <==> x in s
    ensures forall i, j :: 0 <= i < j < |r| ==> r[i] != r[j]
    ensures forall i, j :: 0 <= i < j < |r| ==> FirstIndex(s, r[i]) < FirstIndex(s, r[j])
    ensures |r| <= |s|
    decreases |s|
  {
    if |s| == 0 then []
    else
      var p := s[..|s| - 1];
      var rest := Dedup(p);
      FirstIndexOfPrefix(s);
      if s[|s| - 1] in rest then rest else rest + [s[|s| - 1]]
  }

  /** A sequence without repeats is its own de-duplication. */
  lemma {:induction false} DedupOfDistinct(s: seq<TraitKey>)
    requires forall i, j :: 0 <= i < j < |s| ==> s[i] != s[j]
    ensures Dedup(s) == s
  {
    if |s| > 0 {
      var p := s[..|s| - 1];
      DedupOfDistinct(p);
      assert s == p + [s[|s| - 1]];
    }
  }

  /** What the action handler is given besides the record: the number of
      focus sessions recorded today (the new one included), the `habitId`
      of the metadata, the number of the last seven days on which that habit
      was completed, and the current time. */
  datatype ActionContext = ActionContext(
    sessionsToday: nat,
    habitId: Option<string>,
    habitDaysDone: nat,
    at: int)

  /** The action types the handler knows, and every other string. */
  datatype Action =
    | TaskComplete | SmallTaskComplete | OverdueTaskComplete | FocusSessionComplete
    | JournalEntry | MoodCheckin | LearningTaskComplete | Habit7DayStreak
    | Unknown

  /** The action-type string of each known action. */
  function ActionName(a: Action): string
    requires a != Unknown
  {
    match a
    case TaskComplete => "TASK_COMPLETE"
    case SmallTaskComplete => "SMALL_TASK_COMPLETE"
    case OverdueTaskComplete => "OVERDUE_TASK_COMPLETE"
    case FocusSessionComplete => "FOCUS_SESSION_COMPLETE"
    case JournalEntry => "JOURNAL_ENTRY"
    case MoodCheckin => "MOOD_CHECKIN"
    case LearningTaskComplete => "LEARNING_TASK_COMPLETE"
    case Habit7DayStreak => "HABIT_7_DAY_STREAK"
  }

  /** The `switch (actionType)`: the case a string selects. */
  function ParseAction(s: string): (a: Action)
    ensures a != Unknown ==> ActionName(a) == s
  {
    if s == "TASK_COMPLETE" then TaskComplete
    else if s == "SMALL_TASK_COMPLETE" then SmallTaskComplete
    else if s == "OVERDUE_TASK_COMPLETE" then OverdueTaskComplete
    else if s == "FOCUS_SESSION_COMPLETE" then FocusSessionComplete
    else if s == "JOURNAL_ENTRY" then JournalEntry
    else if s == "MOOD_CHECKIN" then MoodCheckin
    else if s == "LEARNING_TASK_COMPLETE" then LearningTaskComplete
    else if s == "HABIT_7_DAY_STREAK" then Habit7DayStreak
    else Unknown
  }

  /** Each known action's string selects that action, and every string that
      is not one of them selects no case. */
  lemma ParseActionName(a: Action, s: string)
    ensures a != Unknown ==> ParseAction(ActionName(a)) == a
    ensures (forall b: Action :: b != Unknown ==> s != ActionName(b)) ==> ParseAction(s) == Unknown
  {
    if a != Unknown {
      match a
      case TaskComplete =>
      case SmallTaskComplete =>
      case OverdueTaskComplete =>
      case FocusSessionComplete =>
      case JournalEntry =>
      case MoodCheckin =>
      case LearningTaskComplete =>
      case Habit7DayStreak =>
    }
    if forall b: Action :: b != Unknown ==> s != ActionName(b) {
      assert s != ActionName(TaskComplete) && s != ActionName(SmallTaskComplete)
        && s != ActionName(OverdueTaskComplete) && s != ActionName(FocusSessionComplete)
        && s != ActionName(JournalEntry) && s != ActionName(MoodCheckin)
        && s != ActionName(LearningTaskComplete) && s != ActionName(Habit7DayStreak);
    }
  }

  /** The consistency award of a focus session: 8 from the third session of
      the day on, 3 before. */
  function FocusConsistency(sessionsToday: nat): nat
  {
    if sessionsToday >= 3 then 8 else 3
  }

  /** `!habitId`: absent or empty. */
  predicate Falsy(id: Option<string>)
  {
    id.None? || id.value == ""
  }

  /** The streak is rewarded: a habit is named and was completed on each of
      the last seven days. */
  predicate StreakRewarded(ctx: ActionContext)
  {
    !Falsy(ctx.habitId) && ctx.habitDaysDone >= 7
  }

  /** XP awarded to each trait. */
  datatype XPAward = XPAward(consistency: nat, attention: nat, momentum: nat, awareness: nat, learning: nat)
  {
    function Get(k: TraitKey): nat
    {
      match k
      case Consistency => consistency
      case Attention => attention
      case Momentum => momentum
      case Awareness => awareness
      case Learning => learning
    }
  }

  const NoXP: XPAward := XPAward(0, 0, 0, 0, 0)

  /** The award table: the XP each action gives each trait in the given
      context. */
  function AwardTable(a: Action, ctx: ActionContext): XPAward
  {
    match a
    case TaskComplete => NoXP.(momentum := 5)
    case SmallTaskComplete => NoXP.(consistency := 3)
    case OverdueTaskComplete => NoXP.(momentum := 8)
    case FocusSessionComplete => NoXP.(attention := 10, consistency := FocusConsistency(ctx.sessionsToday))
    case JournalEntry => NoXP.(awareness := 6)
    case MoodCheckin => NoXP.(awareness := 3)
    case LearningTaskComplete => NoXP.(learning := 8)
    case Habit7DayStreak => if StreakRewarded(ctx) then NoXP.(consistency := 15) else NoXP
    case Unknown => NoXP
  }

  /** Every action except the focus session awards at most one trait, and the
      focus session awards exactly attention and consistency. */
  lemma AwardsAtMostTwo(a: Action, ctx: ActionContext, k: TraitKey, k': TraitKey)
    requires AwardTable(a, ctx).Get(k) > 0 && AwardTable(a, ctx).Get(k') > 0 && k != k'
    ensures a == FocusSessionComplete && {k, k'} == {Attention, Consistency}
  {
  }

  /** Only the seven-day streak can award nothing among the known actions,
      and only when the streak is not rewarded. */
  lemma NothingAwarded(a: Action, ctx: ActionContext)
    ensures AwardTable(a, ctx) == NoXP <==> a == Unknown || (a == Habit7DayStreak && !StreakRewarded(ctx))
  {
  }

  /** `[k]` when the award gives trait `k` XP and its level rose, else `[]`. */
  function RoseBy(before: TraitStates, after: TraitStates, w: XPAward, k: TraitKey): seq<TraitKey>
  {
    if w.Get(k) > 0 && after.Get(k).level > OrOne(before.Get(k).level) then [k] else []
  }

  /** The awarded traits whose level rose, in the order the handler applies
      awards: attention before consistency (the only action awarding two
      traits is the focus session, which applies attention first). */
  function Risen(before: TraitStates, after: TraitStates, w: XPAward): (r: seq<TraitKey>)
  {
    RoseBy(before, after, w, Attention) + RoseBy(before, after, w, Consistency)
    + RoseBy(before, after, w, Momentum) + RoseBy(before, after, w, Awareness)
    + RoseBy(before, after, w, Learning)
  }

  /** The reported traits are exactly the awarded traits whose level rose;
      with only attention and consistency awarded, attention comes first. */
  lemma RisenSpec(before: TraitStates, after: TraitStates, w: XPAward)
    ensures forall k: TraitKey :: k in Risen(before, after, w)
              <==> w.Get(k) > 0 && after.Get(k).level > OrOne(before.Get(k).level)
    ensures w.momentum == 0 && w.awareness == 0 && w.learning == 0 ==>
              Risen(before, after, w) == RoseBy(before, after, w, Attention) + RoseBy(before, after, w, Consistency)
  {
  }

  /** The position of a trait in the order awards are applied. */
  function AwardRank(k: TraitKey): nat
  {
    match k
    case Attention => 0
    case Consistency => 1
    case Momentum => 2
    case Awareness => 3
    case Learning => 4
  }

  predicate InAwardOrder(s: seq<TraitKey>)
  {
    forall i, j :: 0 <= i < j < |s| ==> AwardRank(s[i]) < AwardRank(s[j])
  }

  lemma InAwardOrderConcat(x: seq<TraitKey>, y: seq<TraitKey>, bound: nat)
    requires InAwardOrder(x) && InAwardOrder(y)
    requires forall i :: 0 <= i < |x| ==> AwardRank(x[i]) < bound
    requires forall j :: 0 <= j < |y| ==> bound <= AwardRank(y[j])
    ensures InAwardOrder(x + y)
  {
    var s := x + y;
    forall i, j | 0 <= i < j < |s| ensures AwardRank(s[i]) < AwardRank(s[j]) {
      if j < |x| {
        assert s[i] == x[i] && s[j] == x[j];
      } else if i >= |x| {
        assert s[i] == y[i - |x|] && s[j] == y[j - |x|];
      } else {
        assert s[i] == x[i] && s[j] == y[j - |x|];
      }
    }
  }

  /** Each trait is reported at most once, in award order. */
  lemma RisenDistinct(before: TraitStates, after: TraitStates, w: XPAward)
    ensures InAwardOrder(Risen(before, after, w))
    ensures var r := Risen(before, after, w); forall i, j :: 0 <= i < j < |r| ==> r[i] != r[j]
  {
    var a, c, m, aw, l := RoseBy(before, after, w, Attention), RoseBy(before, after, w, Consistency),
      RoseBy(before, after, w, Momentum), RoseBy(before, after, w, Awareness), RoseBy(before, after, w, Learning);
    InAwardOrderConcat(a, c, 1);
    InAwardOrderConcat(a + c, m, 2);
    InAwardOrderConcat(a + c + m, aw, 3);
    InAwardOrderConcat(a + c + m + aw, l, 4);
  }

  /** What an award does to the traits and the recent-growth list: each
      awarded trait gets its XP and then climbs as far as its XP allows;
      every other trait is untouched. The traits whose level rose are
      reported (see `RisenSpec`); their items go to the front of the
      recent-growth list, newest first, and the list is kept to five. An
      empty award returns the record as it was with nothing reported. */
  predicate Awarded(g: GrowthRecord, w: XPAward, at: int, r: Outcome)
  {
    TraitsAwarded(g.traits, w, r.growth.traits)
    && r.leveledUpTraits == Risen(g.traits, r.growth.traits, w)
    && r.growth.recentGrowth == Announced(g.recentGrowth, r.leveledUpTraits, at)
    && (w == NoXP ==> r == Outcome(g, []))
  }

  /** The trait part of an award: the awarded traits climb, the others are
      untouched. */
  predicate TraitsAwarded(before: TraitStates, w: XPAward, after: TraitStates)
  {
    (forall k: TraitKey :: w.Get(k) == 0 ==> after.Get(k) == before.Get(k))
    && (forall k: TraitKey :: w.Get(k) > 0 ==>
          IsSettled(OrOne(before.Get(k).level), before.Get(k).xp + w.Get(k), after.Get(k)))
  }

  /** The trait steps of `applyAction`, the action type already matched to
      its case. */
  function RaiseAction(g: GrowthRecord, a: Action, ctx: ActionContext): Outcome
  {
    match a
    case TaskComplete => Raise(g, Momentum, 5, ctx.at)
    case SmallTaskComplete => Raise(g, Consistency, 3, ctx.at)
    case OverdueTaskComplete => Raise(g, Momentum, 8, ctx.at)
    case FocusSessionComplete => RaiseFocus(g, ctx)
    case JournalEntry => Raise(g, Awareness, 6, ctx.at)
    case MoodCheckin => Raise(g, Awareness, 3, ctx.at)
    case LearningTaskComplete => Raise(g, Learning, 8, ctx.at)
    case Habit7DayStreak => if StreakRewarded(ctx) then Raise(g, Consistency, 15, ctx.at) else Outcome(g, [])
    case Unknown => Outcome(g, [])
  }

  /** The focus-session case: attention 10 XP, then consistency, each with
      its own level-up loop; the two lists of level-ups are joined and
      de-duplicated. */
  function RaiseFocus(g: GrowthRecord, ctx: ActionContext): Outcome
  {
    var r1 := Raise(g, Attention, 10, ctx.at);
    var r2 := Raise(r1.growth, Consistency, FocusConsistency(ctx.sessionsToday), ctx.at);
    Outcome(r2.growth, Dedup(r1.leveledUpTraits + r2.leveledUpTraits))
  }

  /** The award `w` gives XP to `key` only. */
  predicate OnlyTo(w: XPAward, key: TraitKey)
  {
    w.Get(key) > 0 && forall k: TraitKey :: k != key ==> w.Get(k) == 0
  }

  /** A single-trait award is one trait step. */
  lemma RaiseIsAwarded(g: GrowthRecord, w: XPAward, key: TraitKey, at: int)
    requires OnlyTo(w, key)
    ensures Awarded(g, w, at, Raise(g, key, w.Get(key), at))
  {
    var r := Raise(g, key, w.Get(key), at);
    RaiseTraits(g, w, key, at);
    RaiseReports(g, w, key, at);
    assert w.Get(key) != NoXP.Get(key);
  }

  lemma RaiseTraits(g: GrowthRecord, w: XPAward, key: TraitKey, at: int)
    requires OnlyTo(w, key)
    ensures TraitsAwarded(g.traits, w, Raise(g, key, w.Get(key), at).growth.traits)
  {
    var r := Raise(g, key, w.Get(key), at);
    OneStepAwarded(g.traits, r.growth.traits, w, key);
  }

  /** One trait step that settles the awarded trait and leaves the rest
      applies a single-trait award. */
  lemma OneStepAwarded(before: TraitStates, after: TraitStates, w: XPAward, key: TraitKey)
    requires OnlyTo(w, key)
    requires forall k: TraitKey :: k != key ==> after.Get(k) == before.Get(k)
    requires IsSettled(OrOne(before.Get(key).level), before.Get(key).xp + w.Get(key), after.Get(key))
    ensures TraitsAwarded(before, w, after)
  {
  }

  lemma RaiseReports(g: GrowthRecord, w: XPAward, key: TraitKey, at: int)
    requires OnlyTo(w, key)
    ensures var r := Raise(g, key, w.Get(key), at);
            r.leveledUpTraits == Risen(g.traits, r.growth.traits, w)
  {
    var r := Raise(g, key, w.Get(key), at);
    OneStepReported(g.traits, r.growth.traits, w, key, r.leveledUpTraits);
  }

  /** The level-up a single-trait step reports is the risen traits of the
      award. */
  lemma OneStepReported(before: TraitStates, after: TraitStates, w: XPAward, key: TraitKey, ups: seq<TraitKey>)
    requires OnlyTo(w, key)
    requires forall k: TraitKey :: k != key ==> after.Get(k) == before.Get(k)
    requires ups == if after.Get(key).level > OrOne(before.Get(key).level) then [key] else []
    ensures ups == Risen(before, after, w)
  {
    match key
    case Attention =>
    case Consistency =>
    case Momentum =>
    case Awareness =>
    case Learning =>
  }

  /** The focus session's two trait steps together apply its award. */
  lemma RaiseFocusIsAwarded(g: GrowthRecord, ctx: ActionContext)
    ensures Awarded(g, AwardTable(FocusSessionComplete, ctx), ctx.at, RaiseFocus(g, ctx))
  {
    var w := AwardTable(FocusSessionComplete, ctx);
    var r1 := Raise(g, Attention, 10, ctx.at);
    var r2 := Raise(r1.growth, Consistency, FocusConsistency(ctx.sessionsToday), ctx.at);
    FocusTraits(g, ctx);
    FocusReports(g, ctx);
    AnnouncedTwice(g.recentGrowth, r1.leveledUpTraits, r2.leveledUpTraits, ctx.at);
    assert w.attention != NoXP.attention;
  }

  lemma FocusTraits(g: GrowthRecord, ctx: ActionContext)
    ensures TraitsAwarded(g.traits, AwardTable(FocusSessionComplete, ctx), RaiseFocus(g, ctx).growth.traits)
  {
    var r1 := Raise(g, Attention, 10, ctx.at);
    var r2 := Raise(r1.growth, Consistency, FocusConsistency(ctx.sessionsToday), ctx.at);
    var w := AwardTable(FocusSessionComplete, ctx);
    assert w.attention == 10 && w.consistency == FocusConsistency(ctx.sessionsToday);
    assert RaiseFocus(g, ctx).growth == r2.growth;
    TwoStepsAwarded(g.traits, r1.growth.traits, r2.growth.traits, w);
  }

  lemma FocusReports(g: GrowthRecord, ctx: ActionContext)
    ensures var r1 := Raise(g, Attention, 10, ctx.at);
            var r2 := Raise(r1.growth, Consistency, FocusConsistency(ctx.sessionsToday), ctx.at);
            RaiseFocus(g, ctx).leveledUpTraits == r1.leveledUpTraits + r2.leveledUpTraits
              == Risen(g.traits, r2.growth.traits, AwardTable(FocusSessionComplete, ctx))
  {
    var r1 := Raise(g, Attention, 10, ctx.at);
    var r2 := Raise(r1.growth, Consistency, FocusConsistency(ctx.sessionsToday), ctx.at);
    TwoStepsReported(g.traits, r1.growth.traits, r2.growth.traits, AwardTable(FocusSessionComplete, ctx),
                     r1.leveledUpTraits, r2.leveledUpTraits);
    DedupOfDistinct(r1.leveledUpTraits + r2.leveledUpTraits);
  }

  /** The award gives XP to attention and consistency only. */
  predicate AttentionThenConsistency(w: XPAward)
  {
    w.attention > 0 && w.consistency > 0 && w.momentum == 0 && w.awareness == 0 && w.learning == 0
  }

  /** An attention step followed by a consistency step, each settling its
      trait and leaving the rest, applies a two-trait award. */
  lemma TwoStepsAwarded(t0: TraitStates, t1: TraitStates, t2: TraitStates, w: XPAward)
    requires AttentionThenConsistency(w)
    requires forall k: TraitKey :: k != Attention ==> t1.Get(k) == t0.Get(k)
    requires IsSettled(OrOne(t0.attention.level), t0.attention.xp + w.attention, t1.attention)
    requires forall k: TraitKey :: k != Consistency ==> t2.Get(k) == t1.Get(k)
    requires IsSettled(OrOne(t1.consistency.level), t1.consistency.xp + w.consistency, t2.consistency)
    ensures TraitsAwarded(t0, w, t2)
  {
    assert t1.Get(Consistency) == t0.Get(Consistency);
    assert t2.Get(Attention) == t1.Get(Attention);
  }

  /** The level-ups of the two steps, joined, are the risen traits of the
      award, each once. */
  lemma TwoStepsReported(t0: TraitStates, t1: TraitStates, t2: TraitStates, w: XPAward,
                         u1: seq<TraitKey>, u2: seq<TraitKey>)
    requires AttentionThenConsistency(w)
    requires forall k: TraitKey :: k != Attention ==> t1.Get(k) == t0.Get(k)
    requires forall k: TraitKey :: k != Consistency ==> t2.Get(k) == t1.Get(k)
    requires u1 == if t1.attention.level > OrOne(t0.attention.level) then [Attention] else []
    requires u2 == if t2.consistency.level > OrOne(t1.consistency.level) then [Consistency] else []
    ensures u1 + u2 == Risen(t0, t2, w)
    ensures var u := u1 + u2; forall i, j :: 0 <= i < j < |u| ==> u[i] != u[j]
  {
    assert t1.Get(Consistency) == t0.Get(Consistency);
    assert t2.Get(Attention) == t1.Get(Attention);
    RisenSpec(t0, t2, w);
  }

  /** Every action's trait steps apply its row of the award table. */
  lemma RaiseActionIsAwarded(g: GrowthRecord, a: Action, ctx: ActionContext)
    ensures Awarded(g, AwardTable(a, ctx), ctx.at, RaiseAction(g, a, ctx))
  {
    var w := AwardTable(a, ctx);
    match a
    case TaskComplete => RaiseIsAwarded(g, w, Momentum, ctx.at);
    case SmallTaskComplete => RaiseIsAwarded(g, w, Consistency, ctx.at);
    case OverdueTaskComplete => RaiseIsAwarded(g, w, Momentum, ctx.at);
    case FocusSessionComplete => RaiseFocusIsAwarded(g, ctx);
    case JournalEntry => RaiseIsAwarded(g, w, Awareness, ctx.at);
    case MoodCheckin => RaiseIsAwarded(g, w, Awareness, ctx.at);
    case LearningTaskComplete => RaiseIsAwarded(g, w, Learning, ctx.at);
    case Habit7DayStreak =>
      if StreakRewarded(ctx) {
        RaiseIsAwarded(g, w, Consistency, ctx.at);
      } else {
        assert w == NoXP;
        assert Risen(g.traits, g.traits, w) == [];
      }
    case Unknown =>
      assert Risen(g.traits, g.traits, w) == [];
  }

  /** The award steps keep every level within bounds and never lower one. */
  lemma RaiseActionKeepsTraitsValid(g: GrowthRecord, a: Action, ctx: ActionContext)
    requires forall k: TraitKey :: TraitValid(g.traits.Get(k))
    ensures forall k: TraitKey ::
              TraitValid(RaiseAction(g, a, ctx).growth.traits.Get(k))
              && RaiseAction(g, a, ctx).growth.traits.Get(k).level >= g.traits.Get(k).level
  {
    var r := RaiseAction(g, a, ctx);
    forall k: TraitKey
      ensures TraitValid(r.growth.traits.Get(k)) && r.growth.traits.Get(k).level >= g.traits.Get(k).level
    {
      assert TraitValid(g.traits.Get(k));
    }
  }

  /** `applyAction(userId, actionType, metadata)` on the user's record, the
      action type already matched to its case: the action's row of the
      award table is applied to the traits, and when anything was awarded
      the derived fields are recomputed (each `applyTraitXP` recomputes them
      from the traits alone, so recomputing after the last one gives the same
      record). The record stays within the schema bounds. */
  method ApplyAction(g: GrowthRecord, a: Action, ctx: ActionContext) returns (r: Outcome)
    ensures Awarded(g, AwardTable(a, ctx), ctx.at, r)
    ensures AwardTable(a, ctx) != NoXP ==> DerivedFieldsAgree(r.growth)
    ensures Valid(g) ==> Valid(r.growth)
  {
    var raw := RaiseAction(g, a, ctx);
    RaiseActionIsAwarded(g, a, ctx);
    if AwardTable(a, ctx) == NoXP {
      r := raw;
    } else {
      if Valid(g) {
        RaiseActionKeepsTraitsValid(g, a, ctx);
      }
      var derived := Recompute(raw.growth);
      r := Outcome(derived, raw.leveledUpTraits);
    }
  }
}
