/**
 * The trait catalogue: the five trait keys and their display labels, the
 * per-level XP threshold curve with its level cap, and the table that maps a
 * total level to a title.
 */
module Traits {

  /** The five tracked traits. */
  datatype TraitKey = Consistency | Attention | Momentum | Awareness | Learning

  /** The canonical order of the traits, used wherever they are enumerated. */
  const TraitKeys: seq<TraitKey> := [Consistency, Attention, Momentum, Awareness, Learning]

  /** The key as it is spelled in stored records and in archetype keys. */
  function Name(k: TraitKey): string
  {
    match k
    case Consistency => "consistency"
    case Attention => "attention"
    case Momentum => "momentum"
    case Awareness => "awareness"
    case Learning => "learning"
  }

  /** The display label of a trait. */
  function Label(k: TraitKey): string
  {
    match k
    case Consistency => "Consistency"
    case Attention => "Attention"
    case Momentum => "Momentum"
    case Awareness => "Awareness"
    case Learning => "Learning"
  }

  /** Exactly five keys, all different, every trait present, in the order
      consistency, attention, momentum, awareness, learning; their names are
      pairwise different. */
  lemma TraitKeysEnumerateAll()
    ensures |TraitKeys| == 5
    ensures forall i, j :: 0 <= i < j < |TraitKeys| ==> TraitKeys[i] != TraitKeys[j]
    ensures forall k: TraitKey :: k in TraitKeys
    ensures forall a: TraitKey, b: TraitKey :: Name(a) == Name(b) ==> a == b
  {
    forall k: TraitKey ensures k in TraitKeys {
      match k
      case Consistency => assert TraitKeys[0] == k;
      case Attention => assert TraitKeys[1] == k;
      case Momentum => assert TraitKeys[2] == k;
      case Awareness => assert TraitKeys[3] == k;
      case Learning => assert TraitKeys[4] == k;
    }
  }

  function ToUpper(c: char): char
  {
    if 'a' <= c <= 'z' then (c as int - 32) as char else c
  }

  /** Every label is its key with the first letter capitalised. */
  lemma LabelCapitalisesName(k: TraitKey)
    ensures |Name(k)| > 0
    ensures Label(k) == [ToUpper(Name(k)[0])] + Name(k)[1..]
  {
    match k
    case Consistency => Capitalised("consistency", "Consistency");
    case Attention => Capitalised("attention", "Attention");
    case Momentum => Capitalised("momentum", "Momentum");
    case Awareness => Capitalised("awareness", "Awareness");
    case Learning => Capitalised("learning", "Learning");
  }

  lemma Capitalised(name: string, shown: string)
    requires 0 < |name| && |name| == |shown| && shown[0] == ToUpper(name[0])
    requires forall i :: 1 <= i < |name| ==> shown[i] == name[i]
    ensures shown == [ToUpper(name[0])] + name[1..]
  {
  }

  /** Levels never exceed this cap. */
  const MaxLevel: nat := 50

  /** The XP needed to leave a level: a finite amount below the cap,
      JavaScript's `Infinity` at or above it. */
  datatype Required = Finite(xp: nat) | Infinite

  /** Floor square root, by bisection on `[lo, hi)`. */
  function IsqrtIn(n: nat, lo: nat, hi: nat): (r: nat)
    requires lo < hi && lo * lo <= n < hi * hi
    ensures r * r <= n < (r + 1) * (r + 1)
    decreases hi - lo
  {
    if lo + 1 == hi then lo
    else
      var mid := (lo + hi) / 2;
      if mid * mid <= n then IsqrtIn(n, mid, hi) else IsqrtIn(n, lo, mid)
  }

  function Isqrt(n: nat): (r: nat)
    ensures r * r <= n < (r + 1) * (r + 1)
  {
    assert n < (n + 1) * (n + 1) by {
      assert (n + 1) * (n + 1) == n * n + 2 * n + 1;
    }
    IsqrtIn(n, 0, n + 1)
  }

  lemma SquareMonotone(a: nat, b: nat)
    requires a <= b
    ensures a * a <= b * b
  {
    assert a * a <= a * b <= b * b;
  }

  /** The floor square root is the only number with its defining property. */
  lemma IsqrtUnique(n: nat, r: nat)
    requires r * r <= n < (r + 1) * (r + 1)
    ensures Isqrt(n) == r
  {
    var s := Isqrt(n);
    if s < r {
      SquareMonotone(s + 1, r);
    } else if r < s {
      SquareMonotone(r + 1, s);
    }
  }

  /** A number whose square does not exceed `n` is at most `Isqrt(n)`. */
  lemma IsqrtAtLeast(n: nat, r: nat)
    requires r * r <= n
    ensures r <= Isqrt(n)
  {
    var s := Isqrt(n);
    if s < r {
      SquareMonotone(s + 1, r);
    }
  }

  function Cube(n: nat): nat
  {
    n * n * n
  }

  /** `floor(100 + 40 * level^1.5)` for a level below the cap, computed
      exactly as `100 + floor(sqrt(1600 * level^3))`. */
  function Cost(level: nat): nat
  {
    100 + Isqrt(1600 * Cube(level))
  }

  /** The threshold curve: a finite cost below the cap, `Infinity` from the
      cap on. */
  function RequiredXP(level: nat): (r: Required)
    ensures r.Infinite? <==> level >= MaxLevel
    ensures r.Finite? ==> r.xp >= 100
  {
    if level >= MaxLevel then Infinite else Finite(Cost(level))
  }

  /** Below the cap the threshold `x` is the integer part of
      `100 + 40 * level^1.5`, i.e. `(x - 100)^2 <= 1600 * level^3 < (x - 99)^2`. */
  lemma RequiredXPIsFloorOfFormula(level: nat)
    requires level < MaxLevel
    ensures RequiredXP(level).Finite?
    ensures var x := RequiredXP(level).xp;
      (x - 100) * (x - 100) <= 1600 * Cube(level) < (x - 99) * (x - 99)
  {
  }

  /** Sample points of the curve. */
  lemma RequiredXPSamples()
    ensures RequiredXP(1) == Finite(140)
    ensures RequiredXP(2) == Finite(213)
    ensures RequiredXP(4) == Finite(420)
    ensures RequiredXP(49) == Finite(13820)
    ensures RequiredXP(50) == Infinite
  {
    assert Cube(1) == 1 && Cube(2) == 8 && Cube(4) == 64 && Cube(49) == 117649;
    IsqrtUnique(1600, 40);
    IsqrtUnique(12800, 113);
    IsqrtUnique(102400, 320);
    IsqrtUnique(188238400, 13720);
  }

  lemma MulMonotone(x: nat, y: nat, z: nat)
    requires x <= y
    ensures x * z <= y * z
  {
  }

  lemma CubeMonotone(a: nat, b: nat)
    requires a <= b
    ensures Cube(a) <= Cube(b)
  {
    SquareMonotone(a, b);
    MulMonotone(a * a, b * b, a);
    MulMonotone(a, b, b * b);
  }

  /** A number whose square is at most `k * k` is at most `k`. */
  lemma RootLe(r: nat, k: nat)
    requires r * r <= k * k
    ensures r <= k
  {
    if r > k {
      SquareMonotone(k + 1, r);
    }
  }

  /** `floor(sqrt(1600 * a^3)) <= 40 * a^2`. */
  lemma IsqrtCubeBound(a: nat)
    ensures Isqrt(1600 * Cube(a)) <= 40 * (a * a)
  {
    CubeLeSquareSquare(a);
    ScaledRootLe(Isqrt(1600 * Cube(a)), Cube(a), a * a);
  }

  lemma CubeLeSquareSquare(a: nat)
    ensures Cube(a) <= (a * a) * (a * a)
  {
    var q := a * a;
    assert a <= q by {
      if a > 0 {
        MulMonotone(1, a, a);
      }
    }
    MulMonotone(a, q, q);
    assert Cube(a) == a * q;
  }

  /** A root of at most `1600 * c` with `c <= q * q` is at most `40 * q`. */
  lemma ScaledRootLe(r: nat, c: nat, q: nat)
    requires r * r <= 1600 * c && c <= q * q
    ensures r <= 40 * q
  {
    assert (40 * q) * (40 * q) == 1600 * (q * q);
    RootLe(r, 40 * q);
  }

  lemma CubeSucc(a: nat)
    ensures Cube(a + 1) == Cube(a) + 3 * (a * a) + 3 * a + 1
  {
  }

  lemma SquareSucc(r: nat)
    ensures (r + 1) * (r + 1) == r * r + 2 * r + 1
  {
  }

  /** Each level costs strictly more than the one before it. */
  lemma CostStrictlyIncreasing(a: nat, b: nat)
    requires a < b
    ensures Cost(a) < Cost(b)
  {
    var q := a * a;
    var c := Cube(a);
    var r := Isqrt(1600 * c);
    IsqrtCubeBound(a);
    CubeMonotone(a + 1, b);
    CubeSucc(a);
    SquareSucc(r);
    assert r * r <= 1600 * c;
    assert (r + 1) * (r + 1) <= 1600 * c + 80 * q + 1;
    assert 1600 * c + 80 * q + 1 <= 1600 * Cube(a + 1);
    IsqrtAtLeast(1600 * Cube(b), r + 1);
  }

  /** Below the cap, a higher level needs strictly more XP. */
  lemma RequiredXPStrictlyIncreasing(a: nat, b: nat)
    requires a < b < MaxLevel
    ensures RequiredXP(a).Finite? && RequiredXP(b).Finite?
    ensures RequiredXP(a).xp < RequiredXP(b).xp
  {
    CostStrictlyIncreasing(a, b);
  }

  /** The title reached at each total-level threshold, in ascending order. */
  const TitleByLevel: seq<(nat, string)> := [
    (5, "The Beginner"),
    (10, "Focused Builder"),
    (15, "Steady Climber"),
    (20, "Deep Worker"),
    (30, "Architect"),
    (40, "Calm Operator"),
    (50, "Master of Flow")
  ]

  const DefaultTitle: string := "The Beginner"

  /** Scans the thresholds from index `i` downwards, largest first, for the
      first one not above `totalLevel`; -1 when there is none. */
  function TitleScan(totalLevel: int, i: int): (j: int)
    requires -1 <= i < |TitleByLevel|
    requires i + 1 < |TitleByLevel| ==> totalLevel < TitleByLevel[i + 1].0
    ensures -1 <= j <= i
    ensures j == -1 <==> totalLevel < TitleByLevel[0].0
    ensures j >= 0 ==> TitleByLevel[j].0 <= totalLevel
    ensures j >= 0 && j + 1 < |TitleByLevel| ==> totalLevel < TitleByLevel[j + 1].0
    decreases i + 1
  {
    if i < 0 then -1
    else if totalLevel >= TitleByLevel[i].0 then i
    else TitleScan(totalLevel, i - 1)
  }

  /** The index of the largest threshold not above `totalLevel`, or -1. */
  function TitleIndex(totalLevel: int): (j: int)
    ensures -1 <= j < |TitleByLevel|
    ensures j == -1 <==> totalLevel < 5
    ensures j >= 0 ==> TitleByLevel[j].0 <= totalLevel
    ensures j >= 0 && j + 1 < |TitleByLevel| ==> totalLevel < TitleByLevel[j + 1].0
  {
    TitleScan(totalLevel, |TitleByLevel| - 1)
  }

  /** `getTitle`: the title of the largest threshold that `totalLevel`
      reaches, or the default below the smallest threshold. */
  function GetTitle(totalLevel: int): (t: string)
    ensures totalLevel < 5 ==> t == DefaultTitle
    ensures forall i :: (0 <= i < |TitleByLevel| && TitleByLevel[i].0 <= totalLevel
                         && (i + 1 == |TitleByLevel| || totalLevel < TitleByLevel[i + 1].0))
                        ==> t == TitleByLevel[i].1
  {
    var j := TitleIndex(totalLevel);
    if j < 0 then DefaultTitle else TitleByLevel[j].1
  }

  /** A higher total level never selects a lower threshold. */
  lemma TitleIndexMonotone(n: int, m: int)
    requires n <= m
    ensures TitleIndex(n) <= TitleIndex(m)
  {
  }

  lemma GetTitleSamples(n: int)
    requires n >= 50
    ensures GetTitle(4) == "The Beginner"
    ensures GetTitle(22) == "Deep Worker"
    ensures GetTitle(n) == "Master of Flow"
  {
  }
}
