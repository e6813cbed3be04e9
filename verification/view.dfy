/**
 * What the client is shown of a growth record: the response the server
 * builds from it (per-trait threshold and progress, the recent-growth list
 * cut to five) and the growth panel built from that response (the trait rows,
 * the "next level in N points" line and the three newest messages).
 */
module GrowthView {
  import opened Options
  import opened Traits
  import opened Growth
  import opened GrowthService

  /** One trait as the response carries it: no threshold (`null`) at the
      cap, and the progress towards the threshold in percent. */
  datatype TraitView = TraitView(level: nat, xp: nat, requiredXP: Option<nat>, progressPercent: real)

  /** The response body for a growth record. The traits are keyed by trait;
      a response read by the client may lack some of them. */
  datatype GrowthResponse = GrowthResponse(
    totalLevel: int,
    totalXP: int,
    title: string,
    archetype: string,
    traits: map<TraitKey, TraitView>,
    recentGrowth: seq<GrowthEntry>)

  function Min100(p: real): real
  {
    if p < 100.0 then p else 100.0
  }

  /** `Math.min(100, xp / required * 100)`: never negative, 100 exactly
      when the XP reach the threshold, and below that the XP as a share of
      the threshold. */
  function Progress(x: nat, d: nat): (p: real)
    requires d > 0
    ensures 0.0 <= p <= 100.0
    ensures p == 100.0 <==> x >= d
    ensures x < d ==> p * (d as real) == (x as real) * 100.0
  {
    var q := (x as real) / (d as real);
    assert q * (d as real) == x as real;
    assert q >= 1.0 <==> x >= d;
    Min100(q * 100.0)
  }

  /** One trait of `formatGrowthForResponse`: below the cap the threshold is
      reported with the progress towards it; at the cap there is no
      threshold and the progress is 100. */
  function ViewTrait(t: TraitState): (v: TraitView)
    ensures v.level == t.level && v.xp == t.xp
    ensures v.requiredXP.None? <==> t.level >= MaxLevel
    ensures v.requiredXP.Some? ==> RequiredXP(t.level) == Finite(v.requiredXP.value)
    ensures t.level >= MaxLevel ==> v.progressPercent == 100.0
    ensures t.level < MaxLevel ==> v.progressPercent == Progress(t.xp, Cost(t.level))
  {
    if t.level >= MaxLevel then TraitView(t.level, t.xp, None, 100.0)
    else
      var required := RequiredXP(t.level).xp;
      TraitView(t.level, t.xp, Some(required), Progress(t.xp, required))
  }

  /** `formatGrowthForResponse`: the stored fields as they are, every trait
      viewed, and at most the five newest recent-growth items. */
  function FormatGrowth(g: GrowthRecord): (v: GrowthResponse)
    ensures v.totalLevel == g.totalLevel && v.totalXP == g.totalXP
    ensures v.title == g.title && v.archetype == g.archetype
    ensures forall k: TraitKey :: k in v.traits && v.traits[k] == ViewTrait(g.traits.Get(k))
    ensures |v.recentGrowth| == Min(|g.recentGrowth|, MaxRecentGrowth)
    ensures v.recentGrowth == g.recentGrowth[..|v.recentGrowth|]
  {
    TraitKeysEnumerateAll();
    GrowthResponse(g.totalLevel, g.totalXP, g.title, g.archetype,
      map k: TraitKey | k in TraitKeys :: ViewTrait(g.traits.Get(k)),
      Take(g.recentGrowth, MaxRecentGrowth))
  }

  /** A record within the schema bounds loses none of its recent growth in
      the response. */
  lemma FormatGrowthKeepsValidRecent(g: GrowthRecord)
    requires Valid(g)
    ensures FormatGrowth(g).recentGrowth == g.recentGrowth
  {
  }

  /** A trait left behind by the level-up loop below the cap shows progress
      strictly below 100. */
  lemma SettledProgressBelowFull(level: nat, xp: nat, t: TraitState)
    requires IsSettled(level, xp, t) && t.level < MaxLevel
    ensures ViewTrait(t).progressPercent < 100.0
    ensures ViewTrait(t).requiredXP.Some?
  {
  }

  /** `t && t.level < 50 && t.requiredXP != null`: the trait counts towards
      the "next level" line. */
  predicate Qualifies(traits: map<TraitKey, TraitView>, k: TraitKey)
  {
    k in traits && traits[k].level < MaxLevel && traits[k].requiredXP.Some?
  }

  /** `Math.max(0, t.requiredXP - t.xp)`: the points still missing. */
  function Gap(t: TraitView): nat
    requires t.requiredXP.Some?
  {
    if t.requiredXP.value >= t.xp then t.requiredXP.value - t.xp else 0
  }

  /** `remainingXP`: no value when no trait qualifies, and otherwise the
      least gap among the qualifying traits. */
  predicate IsRemaining(traits: map<TraitKey, TraitView>, r: Option<nat>)
  {
    (r.None? <==> forall k: TraitKey :: !Qualifies(traits, k))
    && (r.Some? ==> exists k: TraitKey :: Qualifies(traits, k) && r.value == Gap(traits[k]))
    && (r.Some? ==> forall k: TraitKey :: Qualifies(traits, k) ==> r.value <= Gap(traits[k]))
  }

  /** The minimum is determined by the traits. */
  lemma RemainingUnique(traits: map<TraitKey, TraitView>, a: Option<nat>, b: Option<nat>)
    requires IsRemaining(traits, a) && IsRemaining(traits, b)
    ensures a == b
  {
    if a.Some? && b.Some? {
      var ka :| Qualifies(traits, ka) && a.value == Gap(traits[ka]);
      var kb :| Qualifies(traits, kb) && b.value == Gap(traits[kb]);
      assert a.value <= Gap(traits[kb]) && b.value <= Gap(traits[ka]);
    }
  }

  /** The loop over the trait keys that computes `remainingXP`. */
  method RemainingXP(traits: map<TraitKey, TraitView>) returns (r: Option<nat>)
    ensures IsRemaining(traits, r)
  {
    TraitKeysEnumerateAll();
    r := None;
    var i := 0;
    while i < |TraitKeys|
      invariant 0 <= i <= |TraitKeys|
      invariant r.None? <==> forall j :: 0 <= j < i ==> !Qualifies(traits, TraitKeys[j])
      invariant r.Some? ==> exists j :: 0 <= j < i && Qualifies(traits, TraitKeys[j]) && r.value == Gap(traits[TraitKeys[j]])
      invariant r.Some? ==> forall j :: 0 <= j < i && Qualifies(traits, TraitKeys[j]) ==> r.value <= Gap(traits[TraitKeys[j]])
    {
      var key := TraitKeys[i];
      if key in traits && traits[key].level < MaxLevel && traits[key].requiredXP.Some? {
        var x := Gap(traits[key]);
        if r.None? || x < r.value {
          r := Some(x);
        }
      }
      i := i + 1;
    }
    forall k: TraitKey | Qualifies(traits, k)
      ensures r.Some? && r.value <= Gap(traits[k])
    {
      assert TraitKeys[Position(k)] == k;
    }
  }

  /** The index of a trait in the canonical order. */
  function Position(k: TraitKey): (i: nat)
    ensures i < |TraitKeys| && TraitKeys[i] == k
  {
    match k
    case Consistency => 0
    case Attention => 1
    case Momentum => 2
    case Awareness => 3
    case Learning => 4
  }

  /** One trait bar: label, level and progress. */
  datatype TraitRow = TraitRow(key: TraitKey, caption: string, level: nat, percent: real)

  function Row(k: TraitKey, t: TraitView): TraitRow
  {
    TraitRow(k, Label(k), t.level, t.progressPercent)
  }

  /** The bars list exactly the traits present, each once, in canonical
      order. */
  predicate ListsTraits(traits: map<TraitKey, TraitView>, rows: seq<TraitRow>)
  {
    (forall i :: 0 <= i < |rows| ==> rows[i].key in traits && rows[i] == Row(rows[i].key, traits[rows[i].key]))
    && (forall i, j :: 0 <= i < j < |rows| ==> Position(rows[i].key) < Position(rows[j].key))
    && (forall k :: k in traits ==> Row(k, traits[k]) in rows)
  }

  /** `TRAIT_KEYS.map(...)`: one bar per trait the response carries, in
      canonical order, skipping absent traits. */
  method TraitRows(traits: map<TraitKey, TraitView>) returns (rows: seq<TraitRow>)
    ensures ListsTraits(traits, rows)
  {
    rows := [];
    var n := 0;
    while n < |TraitKeys|
      invariant 0 <= n <= |TraitKeys|
      invariant forall i :: 0 <= i < |rows| ==> rows[i].key in traits && rows[i] == Row(rows[i].key, traits[rows[i].key])
      invariant forall i :: 0 <= i < |rows| ==> Position(rows[i].key) < n
      invariant forall i, j :: 0 <= i < j < |rows| ==> Position(rows[i].key) < Position(rows[j].key)
      invariant forall j :: 0 <= j < n && TraitKeys[j] in traits ==> Row(TraitKeys[j], traits[TraitKeys[j]]) in rows
    {
      var k := TraitKeys[n];
      if k in traits {
        rows := rows + [Row(k, traits[k])];
      }
      n := n + 1;
    }
    forall k | k in traits
      ensures Row(k, traits[k]) in rows
    {
      assert TraitKeys[Position(k)] == k;
    }
  }

  function Messages(s: seq<GrowthEntry>): (m: seq<string>)
    ensures |m| == |s|
    ensures forall i :: 0 <= i < |m| ==> m[i] == s[i].Message()
  {
    if |s| == 0 then [] else [s[0].Message()] + Messages(s[1..])
  }

  /** `recentGrowth.slice(0, 3).map((g) => g.message)`. */
  function RecentMessages(recent: seq<GrowthEntry>): (m: seq<string>)
    ensures |m| == Min(|recent|, 3)
    ensures forall i :: 0 <= i < |m| ==> m[i] == recent[i].Message()
  {
    Messages(Take(recent, 3))
  }

  /** The growth panel: the level and title always show; the trait bars,
      the "next level" line and the recent messages are its details, shown
      only while the panel is expanded. */
  datatype Panel = Panel(level: int, title: string, details: Option<Details>)

  /** The expanded part of the growth panel. */
  datatype Details = Details(rows: seq<TraitRow>, nextLevelIn: Option<nat>, recent: seq<string>)

  /** The growth panel for a loaded response. The panel starts collapsed and
      its header button flips `expanded`. Collapsed, it shows only the
      level and title. Expanded, it adds the trait bars, the "next level in N
      points" line (shown only below total level 50 and when some trait
      qualifies) and at most three recent messages. */
  method RenderPanel(v: GrowthResponse, expanded: bool) returns (p: Panel)
    ensures p.level == v.totalLevel && p.title == v.title
    ensures p.details.Some? <==> expanded
    ensures p.details.Some? ==> ListsTraits(v.traits, p.details.value.rows)
    ensures p.details.Some? ==>
              (p.details.value.nextLevelIn.Some? <==> v.totalLevel < MaxLevel && exists k: TraitKey :: Qualifies(v.traits, k))
    ensures p.details.Some? && p.details.value.nextLevelIn.Some? ==> IsRemaining(v.traits, p.details.value.nextLevelIn)
    ensures p.details.Some? ==> |p.details.value.recent| <= 3 && |p.details.value.recent| == Min(|v.recentGrowth|, 3)
    ensures p.details.Some? ==>
              forall i :: 0 <= i < |p.details.value.recent| ==> p.details.value.recent[i] == v.recentGrowth[i].Message()
  {
    if !expanded {
      return Panel(v.totalLevel, v.title, None);
    }
    var remaining := RemainingXP(v.traits);
    var rows := TraitRows(v.traits);
    var next := if v.totalLevel < MaxLevel && remaining.Some? then remaining else None;
    p := Panel(v.totalLevel, v.title, Some(Details(rows, next, RecentMessages(v.recentGrowth))));
  }

  /** Below total level 50, a record within the schema bounds whose total
      level agrees with its traits always shows the "next level" line: some
      trait is still below the cap. */
  lemma NextLevelShownBelowCap(g: GrowthRecord)
    requires forall k: TraitKey :: TraitValid(g.traits.Get(k))
    requires g.totalLevel == TotalLevel(g.traits) && g.totalLevel < MaxLevel
    ensures exists k: TraitKey :: Qualifies(FormatGrowth(g).traits, k)
  {
    var v := FormatGrowth(g);
    var ts := g.traits;
    assert TraitValid(ts.Get(Consistency)) && TraitValid(ts.Get(Attention)) && TraitValid(ts.Get(Momentum))
      && TraitValid(ts.Get(Awareness)) && TraitValid(ts.Get(Learning));
    if ts.consistency.level < MaxLevel {
      assert Qualifies(v.traits, Consistency);
    } else if ts.attention.level < MaxLevel {
      assert Qualifies(v.traits, Attention);
    } else if ts.momentum.level < MaxLevel {
      assert Qualifies(v.traits, Momentum);
    } else if ts.awareness.level < MaxLevel {
      assert Qualifies(v.traits, Awareness);
    } else {
      assert Qualifies(v.traits, Learning);
    }
  }
}
