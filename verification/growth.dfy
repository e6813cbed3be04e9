/**
 * The per-user growth record: five trait states, the fields derived from
 * them (total level, total XP, title, archetype) and the newest-first list of
 * recent level-up messages, with the bounds the stored schema imposes.
 */
module Growth {
  import opened Options
  import opened Traits
  import opened Archetypes

  /** One trait's progress: its level and the XP collected towards the next. */
  datatype TraitState = TraitState(level: nat, xp: nat)

  /** The default state of every trait. */
  const FreshTrait: TraitState := TraitState(1, 0)

  /** The `traits` sub-document. Every key has a state of its own: the schema
      gives each missing key the default state. */
  datatype TraitStates = TraitStates(
    consistency: TraitState,
    attention: TraitState,
    momentum: TraitState,
    awareness: TraitState,
    learning: TraitState)
  {
    function Get(k: TraitKey): TraitState
    {
      match k
      case Consistency => consistency
      case Attention => attention
      case Momentum => momentum
      case Awareness => awareness
      case Learning => learning
    }

    /** `traits[k] = t`: the given trait is replaced, the other four kept. */
    function Set(k: TraitKey, t: TraitState): (r: TraitStates)
      ensures r.Get(k) == t
      ensures forall k': TraitKey :: k' != k ==> r.Get(k') == Get(k')
    {
      match k
      case Consistency => this.(consistency := t)
      case Attention => this.(attention := t)
      case Momentum => this.(momentum := t)
      case Awareness => this.(awareness := t)
      case Learning => this.(learning := t)
    }
  }

  const AllFresh: TraitStates := TraitStates(FreshTrait, FreshTrait, FreshTrait, FreshTrait, FreshTrait)

  /** One `recentGrowth` item (`key` is its `trait` field); `at` is the time
      stamp, taken as a number. The only items ever written announce a level-up,
      so the message is a function of the trait. */
  datatype GrowthEntry = GrowthEntry(key: TraitKey, at: int)
  {
    function Message(): string
    {
      Label(key) + " strengthened."
    }
  }

  /** A growth record; the owning user is the key it is stored under. */
  datatype GrowthRecord = GrowthRecord(
    totalLevel: int,
    totalXP: int,
    traits: TraitStates,
    title: string,
    archetype: string,
    recentGrowth: seq<GrowthEntry>)

  /** The most recent-growth items kept. */
  const MaxRecentGrowth: nat := 5

  /** The record created for a user who has none yet. */
  const InitialRecord: GrowthRecord := GrowthRecord(1, 0, AllFresh, "The Beginner", "", [])

  /** Schema bounds of one trait: level in `[1, MaxLevel]`; XP is never
      negative by its type. */
  predicate TraitValid(t: TraitState)
  {
    1 <= t.level <= MaxLevel
  }

  /** Schema bounds of a record, plus the length bound the service keeps on
      the recent-growth list. */
  predicate Valid(g: GrowthRecord)
  {
    (forall k: TraitKey :: TraitValid(g.traits.Get(k)))
    && g.totalLevel >= 1 && g.totalXP >= 0
    && |g.recentGrowth| <= MaxRecentGrowth
  }

  /** `level || 1`: a zero level reads as 1. */
  function OrOne(n: nat): (r: nat)
    ensures r >= 1 && (n >= 1 ==> r == n)
  {
    if n == 0 then 1 else n
  }

  /** The sum of the five levels, each read with `|| 1`. */
  function LevelSum(ts: TraitStates): nat
  {
    OrOne(ts.consistency.level) + OrOne(ts.attention.level) + OrOne(ts.momentum.level)
    + OrOne(ts.awareness.level) + OrOne(ts.learning.level)
  }

  /** `Math.floor(traitSum / 5)`. */
  function TotalLevel(ts: TraitStates): int
  {
    LevelSum(ts) / 5
  }

  /** The `reduce` over the given keys adding up the XP values. */
  function SumXP(ts: TraitStates, keys: seq<TraitKey>): nat
  {
    if |keys| == 0 then 0 else SumXP(ts, keys[..|keys| - 1]) + ts.Get(keys[|keys| - 1]).xp
  }

  function TotalXP(ts: TraitStates): nat
  {
    SumXP(ts, TraitKeys)
  }

  /** One entry per given key, in the given order, each level a number. */
  function EntriesOf(ts: TraitStates, keys: seq<TraitKey>): (r: seq<Entry>)
    ensures |r| == |keys|
    ensures forall i :: 0 <= i < |keys| ==> r[i] == Entry(keys[i], Some(ts.Get(keys[i]).level))
  {
    if |keys| == 0 then []
    else EntriesOf(ts, keys[..|keys| - 1]) + [Entry(keys[|keys| - 1], Some(ts.Get(keys[|keys| - 1]).level))]
  }

  /** `Object.entries(traits)`: the five traits in schema order. */
  function Entries(ts: TraitStates): seq<Entry>
  {
    EntriesOf(ts, TraitKeys)
  }

  /** The record with total level, total XP, title and archetype recomputed
      from its traits. */
  function Derive(g: GrowthRecord): GrowthRecord
  {
    var level := TotalLevel(g.traits);
    g.(totalLevel := level, totalXP := TotalXP(g.traits), title := GetTitle(level),
       archetype := GetArchetype(Entries(g.traits)))
  }

  /** The derived fields agree with the traits. */
  predicate DerivedFieldsAgree(g: GrowthRecord)
  {
    g.totalLevel == TotalLevel(g.traits)
    && g.totalXP == TotalXP(g.traits)
    && g.title == GetTitle(g.totalLevel)
    && g.archetype == GetArchetype(Entries(g.traits))
  }

  lemma DeriveAgrees(g: GrowthRecord)
    ensures DerivedFieldsAgree(Derive(g))
    ensures Derive(g).traits == g.traits && Derive(g).recentGrowth == g.recentGrowth
  {
  }

  /** The last step of `applyTraitXP` before saving: total level, total XP,
      title and archetype recomputed from the traits, nothing else changed. */
  method Recompute(g: GrowthRecord) returns (r: GrowthRecord)
    ensures DerivedFieldsAgree(r)
    ensures r.traits == g.traits && r.recentGrowth == g.recentGrowth
    ensures (forall k: TraitKey :: TraitValid(g.traits.Get(k))) && |g.recentGrowth| <= MaxRecentGrowth ==> Valid(r)
  {
    r := Derive(g);
    DeriveAgrees(g);
    if forall k: TraitKey :: TraitValid(g.traits.Get(k)) {
      TotalLevelBounds(g.traits);
    }
  }

  /** The total XP is the sum of the five XP values. */
  lemma TotalXPIsSum(ts: TraitStates)
    ensures TotalXP(ts) == ts.consistency.xp + ts.attention.xp + ts.momentum.xp
                           + ts.awareness.xp + ts.learning.xp
  {
    var k1, k2, k3, k4 := [Consistency], [Consistency, Attention],
      [Consistency, Attention, Momentum], [Consistency, Attention, Momentum, Awareness];
    assert k1[..0] == [] && k2[..1] == k1 && k3[..2] == k2 && k4[..3] == k3 && TraitKeys[..4] == k4;
    assert SumXP(ts, k1) == ts.consistency.xp;
    assert SumXP(ts, k2) == SumXP(ts, k1) + ts.attention.xp;
    assert SumXP(ts, k3) == SumXP(ts, k2) + ts.momentum.xp;
    assert SumXP(ts, k4) == SumXP(ts, k3) + ts.awareness.xp;
  }

  /** With every level in `[1, MaxLevel]`, the total level is too. */
  lemma TotalLevelBounds(ts: TraitStates)
    requires forall k: TraitKey :: TraitValid(ts.Get(k))
    ensures 1 <= TotalLevel(ts) <= MaxLevel
  {
    assert TraitValid(ts.Get(Consistency)) && TraitValid(ts.Get(Attention))
      && TraitValid(ts.Get(Momentum)) && TraitValid(ts.Get(Awareness)) && TraitValid(ts.Get(Learning));
  }

  /** The five entries have different keys and numeric levels. */
  lemma EntriesComplete(ts: TraitStates)
    ensures DistinctKeys(Entries(ts)) && Numeric(Entries(ts)) == Entries(ts)
  {
    var e := Entries(ts);
    TraitKeysEnumerateAll();
    assert forall i :: 0 <= i < |e| ==> e[i].key == TraitKeys[i] && e[i].level.Some?;
    NumericOfAllNumeric(e);
  }

  /** The archetype recomputed from a full set of traits is always one of the
      ten named ones; in particular it is never the empty archetype a fresh
      record starts with. */
  lemma DerivedArchetypeIsMapped(ts: TraitStates)
    ensures IsArchetypeName(GetArchetype(Entries(ts)))
    ensures GetArchetype(Entries(ts)) != DefaultArchetype
    ensures GetArchetype(Entries(ts)) != ""
  {
    EntriesComplete(ts);
    DistinctEntriesAreMapped(Entries(ts));
  }

  /** A fresh record: every trait at level 1 with no XP, total level 1,
      total XP 0, the default title and no archetype; it satisfies the
      schema bounds and its total level, total XP and title agree with its
      traits. */
  lemma InitialRecordIsValid()
    ensures forall k: TraitKey :: InitialRecord.traits.Get(k) == FreshTrait
    ensures Valid(InitialRecord)
    ensures InitialRecord.totalLevel == TotalLevel(InitialRecord.traits) == 1
    ensures InitialRecord.totalXP == TotalXP(InitialRecord.traits) == 0
    ensures InitialRecord.title == GetTitle(InitialRecord.totalLevel) == DefaultTitle
    ensures InitialRecord.archetype == ""
  {
    TotalXPIsSum(AllFresh);
  }

  /** Consistency at level 10 and momentum at level 8, every other trait
      fresh: the record's archetype is "The Architect". */
  lemma ArchitectSample()
    ensures GetArchetype(Entries(AllFresh.(consistency := TraitState(10, 0), momentum := TraitState(8, 0))))
            == "The Architect"
  {
    var ts := AllFresh.(consistency := TraitState(10, 0), momentum := TraitState(8, 0));
    var e := Entries(ts);
    EntriesComplete(ts);
    assert |e| == 5;
    assert e[0] == Entry(Consistency, Some(10)) && e[2] == Entry(Momentum, Some(8));
    assert e[1].level == e[3].level == e[4].level == Some(1);
    ArchitectEntries(e);
  }
}
