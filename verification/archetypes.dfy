/**
 * The archetype resolver: the two highest-level traits, as an unordered pair,
 * select a descriptive label from a fixed table of all ten pairs.
 */
module Archetypes {
  import opened Options
  import opened Strings
  import opened Sorting
  import opened Traits

  /** One `[key, value]` pair of `Object.entries(traits)`; `level` is `None`
      when the value is missing or its level is not a number. */
  datatype Entry = Entry(key: TraitKey, level: Option<int>)

  /** `ARCHETYPE_MAP`: the archetype of each canonical pair key, in the order
      the object literal lists them. */
  const ArchetypeTable: seq<(string, string)> := [
    ("attention,learning", "The Scholar"),
    ("awareness,momentum", "The Sprinter"),
    ("consistency,momentum", "The Architect"),
    ("awareness,consistency", "The Reflective Builder"),
    ("attention,consistency", "The Steady Focus"),
    ("attention,momentum", "The Driven Learner"),
    ("attention,awareness", "The Mindful Observer"),
    ("learning,momentum", "The Quick Learner"),
    ("consistency,learning", "The Diligent Student"),
    ("awareness,learning", "The Thoughtful Explorer")
  ]

  /** The key is one of the table's keys. */
  predicate InTable(key: string)
  {
    exists i :: 0 <= i < |ArchetypeTable| && ArchetypeTable[i].0 == key
  }

  /** The name is one of the table's archetypes. */
  predicate IsArchetypeName(name: string)
  {
    exists i :: 0 <= i < |ArchetypeTable| && ArchetypeTable[i].1 == name
  }

  /** Property lookup in an object literal: the value of the entry with the
      given key, if there is one. */
  function Find(t: seq<(string, string)>, key: string): Option<string>
  {
    if |t| == 0 then None else if t[0].0 == key then Some(t[0].1) else Find(t[1..], key)
  }

  predicate KeysDistinct(t: seq<(string, string)>)
  {
    forall i, j :: 0 <= i < j < |t| ==> t[i].0 != t[j].0
  }

  /** With distinct keys, lookup finds the value filed under the key. */
  lemma {:induction false} FindAt(t: seq<(string, string)>, key: string, i: nat)
    requires KeysDistinct(t) && i < |t| && t[i].0 == key
    ensures Find(t, key) == Some(t[i].1)
    decreases i
  {
    if i > 0 {
      assert t[0].0 != key;
      FindAt(t[1..], key, i - 1);
    }
  }

  /** Lookup of a key no entry has finds nothing. */
  lemma {:induction false} FindNone(t: seq<(string, string)>, key: string)
    requires forall i :: 0 <= i < |t| ==> t[i].0 != key
    ensures Find(t, key) == None
    decreases |t|
  {
    if |t| > 0 {
      FindNone(t[1..], key);
    }
  }

  const DefaultArchetype: string := "The Beginner"

  /** `[x, y].sort().join(",")`: the two names in code-unit order, comma-joined. */
  function PairKey(x: string, y: string): string
  {
    if LexLess(y, x) then y + "," + x else x + "," + y
  }

  /** The key does not depend on the order the two names come in. */
  lemma PairKeyOrderFree(x: string, y: string)
    ensures PairKey(x, y) == PairKey(y, x)
  {
    LexLessTrichotomy(x, y);
  }

  /** Position of a trait's name in alphabetical order. */
  function Alpha(k: TraitKey): nat
  {
    match k
    case Attention => 0
    case Awareness => 1
    case Consistency => 2
    case Learning => 3
    case Momentum => 4
  }

  /** Alphabetical order of two different names is JavaScript string order. */
  lemma NameOrderUp(a: TraitKey, b: TraitKey)
    requires Alpha(a) < Alpha(b)
    ensures LexLess(Name(a), Name(b))
  {
    match (a, b)
    case (Attention, Awareness) => assert LexLess("attention", "awareness");
    case (Attention, Consistency) => assert LexLess("attention", "consistency");
    case (Attention, Learning) => assert LexLess("attention", "learning");
    case (Attention, Momentum) => assert LexLess("attention", "momentum");
    case (Awareness, Consistency) => assert LexLess("awareness", "consistency");
    case (Awareness, Learning) => assert LexLess("awareness", "learning");
    case (Awareness, Momentum) => assert LexLess("awareness", "momentum");
    case (Consistency, Learning) => assert LexLess("consistency", "learning");
    case (Consistency, Momentum) => assert LexLess("consistency", "momentum");
    case (Learning, Momentum) => assert LexLess("learning", "momentum");
  }

  /** JavaScript string order on the five names is alphabetical order. */
  lemma NameOrder(a: TraitKey, b: TraitKey)
    ensures LexLess(Name(a), Name(b)) <==> Alpha(a) < Alpha(b)
  {
    if Alpha(a) < Alpha(b) {
      NameOrderUp(a, b);
    } else if Alpha(b) < Alpha(a) {
      NameOrderUp(b, a);
      LexLessTrichotomy(Name(a), Name(b));
    } else {
      AlphaInjective(a, b);
      LexLessIrreflexive(Name(a));
    }
  }

  /** The canonical key of two different traits puts the alphabetically
      smaller name first. */
  lemma PairKeyOfTraits(a: TraitKey, b: TraitKey)
    requires Alpha(a) < Alpha(b)
    ensures PairKey(Name(a), Name(b)) == Name(a) + "," + Name(b)
    ensures PairKey(Name(b), Name(a)) == Name(a) + "," + Name(b)
  {
    NameOrder(a, b);
    NameOrder(b, a);
  }

  lemma AlphaInjective(a: TraitKey, b: TraitKey)
    ensures Alpha(a) == Alpha(b) ==> a == b
  {
  }

  lemma OrderedPairInTable(a: TraitKey, b: TraitKey)
    requires Alpha(a) < Alpha(b)
    ensures InTable(Name(a) + "," + Name(b))
  {
    match (a, b)
    case (Attention, Awareness) =>
      assert "attention" + "," + "awareness" == "attention,awareness" == ArchetypeTable[6].0;
    case (Attention, Consistency) =>
      assert "attention" + "," + "consistency" == "attention,consistency" == ArchetypeTable[4].0;
    case (Attention, Learning) =>
      assert "attention" + "," + "learning" == "attention,learning" == ArchetypeTable[0].0;
    case (Attention, Momentum) =>
      assert "attention" + "," + "momentum" == "attention,momentum" == ArchetypeTable[5].0;
    case (Awareness, Consistency) =>
      assert "awareness" + "," + "consistency" == "awareness,consistency" == ArchetypeTable[3].0;
    case (Awareness, Learning) =>
      assert "awareness" + "," + "learning" == "awareness,learning" == ArchetypeTable[9].0;
    case (Awareness, Momentum) =>
      assert "awareness" + "," + "momentum" == "awareness,momentum" == ArchetypeTable[1].0;
    case (Consistency, Learning) =>
      assert "consistency" + "," + "learning" == "consistency,learning" == ArchetypeTable[8].0;
    case (Consistency, Momentum) =>
      assert "consistency" + "," + "momentum" == "consistency,momentum" == ArchetypeTable[2].0;
    case (Learning, Momentum) =>
      assert "learning" + "," + "momentum" == "learning,momentum" == ArchetypeTable[7].0;
  }

  /** Every pair of different traits has its canonical key in the table. */
  lemma PairInTable(a: TraitKey, b: TraitKey)
    requires a != b
    ensures InTable(PairKey(Name(a), Name(b)))
  {
    AlphaInjective(a, b);
    if Alpha(a) < Alpha(b) {
      PairKeyOfTraits(a, b);
      OrderedPairInTable(a, b);
    } else {
      PairKeyOfTraits(b, a);
      OrderedPairInTable(b, a);
    }
  }

  /** The pair of traits behind entry `i` of the table, smaller name first. */
  lemma EntryPair(i: nat) returns (a: TraitKey, b: TraitKey)
    requires i < |ArchetypeTable|
    ensures Alpha(a) < Alpha(b) && ArchetypeTable[i].0 == Name(a) + "," + Name(b)
  {
    if i == 0 {
      a, b := Attention, Learning;
      assert "attention" + "," + "learning" == ArchetypeTable[0].0;
    } else if i == 1 {
      a, b := Awareness, Momentum;
      assert "awareness" + "," + "momentum" == ArchetypeTable[1].0;
    } else if i == 2 {
      a, b := Consistency, Momentum;
      assert "consistency" + "," + "momentum" == ArchetypeTable[2].0;
    } else if i == 3 {
      a, b := Awareness, Consistency;
      assert "awareness" + "," + "consistency" == ArchetypeTable[3].0;
    } else if i == 4 {
      a, b := Attention, Consistency;
      assert "attention" + "," + "consistency" == ArchetypeTable[4].0;
    } else if i == 5 {
      a, b := Attention, Momentum;
      assert "attention" + "," + "momentum" == ArchetypeTable[5].0;
    } else if i == 6 {
      a, b := Attention, Awareness;
      assert "attention" + "," + "awareness" == ArchetypeTable[6].0;
    } else if i == 7 {
      a, b := Learning, Momentum;
      assert "learning" + "," + "momentum" == ArchetypeTable[7].0;
    } else if i == 8 {
      a, b := Consistency, Learning;
      assert "consistency" + "," + "learning" == ArchetypeTable[8].0;
    } else {
      a, b := Awareness, Learning;
      assert "awareness" + "," + "learning" == ArchetypeTable[9].0;
    }
  }

  /** The pair of traits behind each key of the table, smaller name first. */
  lemma KeyWitness(key: string) returns (a: TraitKey, b: TraitKey)
    requires InTable(key)
    ensures Alpha(a) < Alpha(b) && key == Name(a) + "," + Name(b)
  {
    var i :| 0 <= i < |ArchetypeTable| && ArchetypeTable[i].0 == key;
    a, b := EntryPair(i);
  }

  /** The table has ten entries with different keys. */
  lemma ArchetypeTableShape()
    ensures |ArchetypeTable| == 10 && KeysDistinct(ArchetypeTable)
  {
  }

  /** Every pair of different traits has its canonical key in the table. */
  lemma ArchetypeTableCoversAllPairs()
    ensures forall a: TraitKey, b: TraitKey :: a != b ==> InTable(PairKey(Name(a), Name(b)))
  {
    forall a: TraitKey, b: TraitKey | a != b ensures InTable(PairKey(Name(a), Name(b))) {
      PairInTable(a, b);
    }
  }

  /** Every key of the table is the canonical key of a pair of different traits. */
  lemma ArchetypeTableKeysCanonical(key: string)
    requires InTable(key)
    ensures exists a: TraitKey, b: TraitKey :: a != b && key == PairKey(Name(a), Name(b))
  {
    var a, b := KeyWitness(key);
    PairKeyOfTraits(a, b);
  }

  predicate NoComma(s: string)
  {
    forall i :: 0 <= i < |s| ==> s[i] != ','
  }

  lemma NamesHaveNoComma(k: TraitKey)
    ensures NoComma(Name(k))
  {
  }

  /** Where the parts of a comma-joined string sit. */
  lemma JoinParts(x: string, y: string)
    ensures |x + "," + y| == |x| + 1 + |y|
    ensures (x + "," + y)[|x|] == ','
    ensures (x + "," + y)[..|x|] == x
    ensures (x + "," + y)[|x| + 1..] == y
  {
  }

  /** A comma-joined pair whose first part is comma-free splits back into its parts. */
  lemma SplitAtComma(x: string, y: string, x': string, y': string)
    requires NoComma(x) && NoComma(x')
    requires x + "," + y == x' + "," + y'
    ensures x == x' && y == y'
  {
    JoinParts(x, y);
    JoinParts(x', y');
  }

  lemma NameInjective(a: TraitKey, b: TraitKey)
    requires Name(a) == Name(b)
    ensures a == b
  {
    TraitKeysEnumerateAll();
  }

  /** Different unordered pairs have different keys, so each pair of traits
      appears in the table exactly once. */
  lemma PairKeyInjective(a: TraitKey, b: TraitKey, c: TraitKey, d: TraitKey)
    requires a != b && c != d
    requires PairKey(Name(a), Name(b)) == PairKey(Name(c), Name(d))
    ensures (a == c && b == d) || (a == d && b == c)
  {
    AlphaInjective(a, b);
    AlphaInjective(c, d);
    var p1 := if Alpha(a) < Alpha(b) then (a, b) else (b, a);
    var p2 := if Alpha(c) < Alpha(d) then (c, d) else (d, c);
    var lo1, hi1, lo2, hi2 := p1.0, p1.1, p2.0, p2.1;
    PairKeyOfTraits(lo1, hi1);
    PairKeyOfTraits(lo2, hi2);
    NamesHaveNoComma(lo1);
    NamesHaveNoComma(lo2);
    SplitAtComma(Name(lo1), Name(hi1), Name(lo2), Name(hi2));
    NameInjective(lo1, lo2);
    NameInjective(hi1, hi2);
  }

  /** A name alone, or nothing, is never a key of the table. */
  lemma SingleNameNotInTable(key: string)
    requires NoComma(key)
    ensures !InTable(key)
  {
    if InTable(key) {
      var a, b := KeyWitness(key);
      JoinParts(Name(a), Name(b));
    }
  }

  /** `ARCHETYPE_MAP[key] || "The Beginner"`: the archetype named by a key, or
      the default for an unknown key. */
  function Lookup(key: string): string
  {
    match Find(ArchetypeTable, key)
    case Some(name) => if name == "" then DefaultArchetype else name
    case None => DefaultArchetype
  }

  /** A key of the table looks up its own archetype. */
  lemma LookupInTable(key: string, i: nat)
    requires i < |ArchetypeTable| && ArchetypeTable[i].0 == key
    ensures Lookup(key) == ArchetypeTable[i].1
    ensures IsArchetypeName(Lookup(key)) && Lookup(key) != DefaultArchetype && Lookup(key) != ""
  {
    ArchetypeTableShape();
    FindAt(ArchetypeTable, key, i);
  }

  /** Any other key looks up the default. */
  lemma LookupNotInTable(key: string)
    requires !InTable(key)
    ensures Lookup(key) == DefaultArchetype
  {
    FindNone(ArchetypeTable, key);
  }

  /** The entries whose level is a number, in order. */
  function Numeric(entries: seq<Entry>): (r: seq<Entry>)
    ensures |r| <= |entries|
    ensures forall i :: 0 <= i < |r| ==> r[i].level.Some? && r[i] in entries
  {
    if |entries| == 0 then []
    else (if entries[0].level.Some? then [entries[0]] else []) + Numeric(entries[1..])
  }

  lemma {:induction false} NumericConcat(a: seq<Entry>, b: seq<Entry>)
    ensures Numeric(a + b) == Numeric(a) + Numeric(b)
    decreases |a|
  {
    if |a| == 0 {
      assert a + b == b;
    } else {
      assert (a + b)[1..] == a[1..] + b;
      NumericConcat(a[1..], b);
    }
  }

  /** The sort key of the comparator `(b[1] || 0) - (a[1] || 0)`: higher
      levels first. */
  function Rank(e: Entry): Key
  {
    Key(-e.level.GetOr(0), 0)
  }

  /** The numeric entries ordered by level, highest first, stably. */
  function Ranked(entries: seq<Entry>): seq<Entry>
  {
    Sort(Numeric(entries), Rank)
  }

  /** `top2`: the names of the (at most) two first-ranked entries, put in
      string order and comma-joined. */
  function TopKey(entries: seq<Entry>): string
  {
    var ranked := Ranked(entries);
    if |ranked| == 0 then ""
    else if |ranked| == 1 then Name(ranked[0].key)
    else PairKey(Name(ranked[0].key), Name(ranked[1].key))
  }

  /** `getArchetype`: always one of the ten archetypes or the default. */
  function GetArchetype(entries: seq<Entry>): (r: string)
    ensures r == DefaultArchetype || IsArchetypeName(r)
  {
    var key := TopKey(entries);
    LookupIsNamed(key);
    Lookup(key)
  }

  /** Looking up any key gives an archetype of the table or the default. */
  lemma LookupIsNamed(key: string)
    ensures Lookup(key) == DefaultArchetype || IsArchetypeName(Lookup(key))
  {
    if InTable(key) {
      var i :| 0 <= i < |ArchetypeTable| && ArchetypeTable[i].0 == key;
      LookupInTable(key, i);
    } else {
      LookupNotInTable(key);
    }
  }

  predicate AllNumeric(v: seq<Entry>)
  {
    forall j :: 0 <= j < |v| ==> v[j].level.Some?
  }

  /** The index of the entry with the highest level; among equal levels the
      earliest one. */
  function Highest(v: seq<Entry>): (i: nat)
    requires |v| > 0 && AllNumeric(v)
    ensures i < |v|
    ensures forall j :: 0 <= j < |v| ==> v[j].level.value <= v[i].level.value
    ensures forall j :: 0 <= j < i ==> v[j].level.value < v[i].level.value
  {
    FirstMin(v, Rank)
  }

  lemma RemoveAtAllNumeric(v: seq<Entry>, i: nat)
    requires i < |v| && AllNumeric(v)
    ensures AllNumeric(RemoveAt(v, i))
  {
    var w := RemoveAt(v, i);
    forall j | 0 <= j < |w| ensures w[j].level.Some? {
      assert w[j] == if j < i then v[j] else v[j + 1];
    }
  }

  /** The archetype is looked up from the highest-level numeric entry and the
      highest-level entry among the rest, ties going to the earlier entry. */
  lemma ArchetypeOfTopTwo(entries: seq<Entry>)
    requires |Numeric(entries)| >= 2
    ensures var v := Numeric(entries);
            var i := Highest(v);
            var w := RemoveAt(v, i);
            |w| > 0 && AllNumeric(w) &&
            GetArchetype(entries) == Lookup(PairKey(Name(v[i].key), Name(w[Highest(w)].key)))
  {
    var v := Numeric(entries);
    var i := Highest(v);
    var w := RemoveAt(v, i);
    RemoveAtAllNumeric(v, i);
    SortUnfold(v, Rank);
    SortUnfold(w, Rank);
  }

  /** With fewer than two numeric entries there is no pair to look up. */
  lemma FewerThanTwoIsDefault(entries: seq<Entry>)
    requires |Numeric(entries)| < 2
    ensures GetArchetype(entries) == DefaultArchetype
  {
    var ranked := Ranked(entries);
    if |ranked| == 1 {
      NamesHaveNoComma(ranked[0].key);
    }
    SingleNameNotInTable(TopKey(entries));
    LookupNotInTable(TopKey(entries));
  }

  /** Entries whose level is not a number do not affect the result. */
  lemma NonNumericIgnored(a: seq<Entry>, k: TraitKey, b: seq<Entry>)
    ensures GetArchetype(a + [Entry(k, None)] + b) == GetArchetype(a + b)
  {
    NumericConcat(a + [Entry(k, None)], b);
    NumericConcat(a, [Entry(k, None)]);
    NumericConcat(a, b);
    assert Numeric([Entry(k, None)]) == [];
    assert Numeric(a + [Entry(k, None)] + b) == Numeric(a + b);
  }

  predicate DistinctKeys(s: seq<Entry>)
  {
    forall i, j :: 0 <= i < j < |s| ==> s[i].key != s[j].key
  }

  lemma {:induction false} NumericDistinct(s: seq<Entry>)
    requires DistinctKeys(s)
    ensures DistinctKeys(Numeric(s))
    decreases |s|
  {
    if |s| > 0 {
      NumericDistinct(s[1..]);
      var t := Numeric(s[1..]);
      forall j | 0 <= j < |t| ensures t[j].key != s[0].key {
        assert t[j] in s[1..];
      }
    }
  }

  /** A key of the table looks up a named archetype, never the default or
      the empty string. */
  lemma MappedIsNotDefault(key: string)
    requires InTable(key)
    ensures IsArchetypeName(Lookup(key)) && Lookup(key) != DefaultArchetype && Lookup(key) != ""
  {
    var i :| 0 <= i < |ArchetypeTable| && ArchetypeTable[i].0 == key;
    LookupInTable(key, i);
  }

  /** The two entries the archetype is looked up from have different keys. */
  lemma TopTwoDistinct(v: seq<Entry>)
    requires |v| >= 2 && AllNumeric(v) && DistinctKeys(v)
    ensures var i := Highest(v);
            var w := RemoveAt(v, i);
            |w| > 0 && AllNumeric(w) && v[i].key != w[Highest(w)].key
  {
    var i := Highest(v);
    var w := RemoveAt(v, i);
    RemoveAtAllNumeric(v, i);
    var j := Highest(w);
    assert w[j] == if j < i then v[j] else v[j + 1];
  }

  /** When no two entries share a key and at least two levels are numbers,
      the result is always one of the ten named archetypes. */
  lemma DistinctEntriesAreMapped(entries: seq<Entry>)
    requires DistinctKeys(entries) && |Numeric(entries)| >= 2
    ensures IsArchetypeName(GetArchetype(entries))
    ensures GetArchetype(entries) != DefaultArchetype && GetArchetype(entries) != ""
  {
    var v := Numeric(entries);
    ArchetypeOfTopTwo(entries);
    NumericDistinct(entries);
    TopTwoDistinct(v);
    var i := Highest(v);
    var w := RemoveAt(v, i);
    var key := PairKey(Name(v[i].key), Name(w[Highest(w)].key));
    PairInTable(v[i].key, w[Highest(w)].key);
    MappedIsNotDefault(key);
  }

  lemma {:induction false} NumericOfAllNumeric(s: seq<Entry>)
    requires AllNumeric(s)
    ensures Numeric(s) == s
    decreases |s|
  {
    if |s| > 0 {
      NumericOfAllNumeric(s[1..]);
      assert s == [s[0]] + s[1..];
    }
  }

  /** An entry whose level is strictly above all others is the highest. */
  lemma StrictlyHighest(v: seq<Entry>, p: nat)
    requires AllNumeric(v) && p < |v|
    requires forall j :: 0 <= j < |v| && j != p ==> v[j].level.value < v[p].level.value
    ensures Highest(v) == p
  {
  }

  /** Of two entries tied above all others, the earlier one is the highest. */
  lemma TiedHighest(v: seq<Entry>, q: nat, r: nat)
    requires AllNumeric(v) && q < r < |v| && v[q].level.value == v[r].level.value
    requires forall j :: 0 <= j < |v| && j != q && j != r ==> v[j].level.value < v[q].level.value
    ensures Highest(v) == q
  {
  }

  lemma RemoveAtIndex(v: seq<Entry>, p: nat, j: nat)
    requires p < |v| && j < |v| && j != p
    ensures var j' := if j < p then j else j - 1;
            j' < |RemoveAt(v, p)| && RemoveAt(v, p)[j'] == v[j]
  {
  }

  lemma ClearRunnerUp(v: seq<Entry>, p: nat, q: nat)
    requires AllNumeric(v) && p < |v| && q < |v| && p != q
    requires forall j :: 0 <= j < |v| && j != p ==> v[j].level.value < v[p].level.value
    requires forall j :: 0 <= j < |v| && j != p && j != q ==> v[j].level.value < v[q].level.value
    ensures Highest(v) == p
    ensures var w := RemoveAt(v, p); AllNumeric(w) && |w| > 0 && w[Highest(w)] == v[q]
  {
    StrictlyHighest(v, p);
    var w := RemoveAt(v, p);
    RemoveAtAllNumeric(v, p);
    RemoveAtIndex(v, p, q);
    var q' := if q < p then q else q - 1;
    forall j | 0 <= j < |w| && j != q' ensures w[j].level.value < w[q'].level.value {
      var j' := if j < p then j else j + 1;
      RemoveAtIndex(v, p, j');
    }
    StrictlyHighest(w, q');
  }

  /** When one numeric entry's level is strictly above all others and a second
      one's is strictly above all but the first, those two decide the
      archetype, wherever they stand in the input. */
  lemma ClearLeadersDecide(entries: seq<Entry>, p: nat, q: nat)
    requires var v := Numeric(entries);
             p < |v| && q < |v| && p != q &&
             (forall j :: 0 <= j < |v| && j != p ==> v[j].level.value < v[p].level.value) &&
             (forall j :: 0 <= j < |v| && j != p && j != q ==> v[j].level.value < v[q].level.value)
    ensures var v := Numeric(entries);
            GetArchetype(entries) == Lookup(PairKey(Name(v[p].key), Name(v[q].key)))
  {
    ArchetypeOfTopTwo(entries);
    ClearRunnerUp(Numeric(entries), p, q);
  }

  lemma LookupSamples()
    ensures Lookup(PairKey("consistency", "momentum")) == "The Architect"
    ensures Lookup(PairKey("learning", "attention")) == "The Scholar"
  {
    PairKeyOfTraits(Consistency, Momentum);
    PairKeyOfTraits(Attention, Learning);
    assert Name(Consistency) + "," + Name(Momentum) == "consistency,momentum";
    assert Name(Attention) + "," + Name(Learning) == "attention,learning";
    LookupInTable("consistency,momentum", 2);
    LookupInTable("attention,learning", 0);
  }

  /** Five numeric entries with consistency at 10 and momentum at 8 ahead
      of the rest give "The Architect". */
  lemma ArchitectEntries(e: seq<Entry>)
    requires |e| == 5 && AllNumeric(e)
    requires e[0] == Entry(Consistency, Some(10)) && e[2] == Entry(Momentum, Some(8))
    requires e[1].level.value < 8 && e[3].level.value < 8 && e[4].level.value < 8
    ensures GetArchetype(e) == "The Architect"
  {
    assert forall j :: 0 <= j < |e| && j != 0 ==> e[j].level.value < e[0].level.value;
    assert forall j :: 0 <= j < |e| && j != 0 && j != 2 ==> e[j].level.value < e[2].level.value;
    ClearLeadersOfNumeric(e, 0, 2);
    ArchitectKey();
  }

  /** `ClearLeadersDecide` for entries that are all numeric. */
  lemma ClearLeadersOfNumeric(e: seq<Entry>, p: nat, q: nat)
    requires AllNumeric(e) && p < |e| && q < |e| && p != q
    requires forall j :: 0 <= j < |e| && j != p ==> e[j].level.value < e[p].level.value
    requires forall j :: 0 <= j < |e| && j != p && j != q ==> e[j].level.value < e[q].level.value
    ensures GetArchetype(e) == Lookup(PairKey(Name(e[p].key), Name(e[q].key)))
  {
    NumericOfAllNumeric(e);
    ClearLeadersDecide(e, p, q);
  }

  lemma ArchitectKey()
    ensures Lookup(PairKey(Name(Consistency), Name(Momentum))) == "The Architect"
  {
    PairKeyOfTraits(Consistency, Momentum);
    assert Name(Consistency) + "," + Name(Momentum) == ArchetypeTable[2].0;
    LookupInTable(ArchetypeTable[2].0, 2);
  }

  lemma TiedRunnerUp(v: seq<Entry>, p: nat, q: nat, r: nat)
    requires AllNumeric(v) && p < |v| && q < r < |v| && p != q && p != r
    requires v[q].level.value == v[r].level.value
    requires forall j :: 0 <= j < |v| && j != p ==> v[j].level.value < v[p].level.value
    requires forall j :: 0 <= j < |v| && j != p && j != q && j != r ==> v[j].level.value < v[q].level.value
    ensures Highest(v) == p
    ensures var w := RemoveAt(v, p); AllNumeric(w) && |w| > 0 && w[Highest(w)] == v[q]
  {
    StrictlyHighest(v, p);
    var w := RemoveAt(v, p);
    RemoveAtAllNumeric(v, p);
    RemoveAtIndex(v, p, q);
    RemoveAtIndex(v, p, r);
    var q' := if q < p then q else q - 1;
    var r' := if r < p then r else r - 1;
    forall j | 0 <= j < |w| && j != q' && j != r' ensures w[j].level.value < w[q'].level.value {
      var j' := if j < p then j else j + 1;
      RemoveAtIndex(v, p, j');
    }
    TiedHighest(w, q', r');
  }

  /** A tie for second place goes to the entry that comes first. */
  lemma RunnerUpTieGoesToEarlier(entries: seq<Entry>, p: nat, q: nat, r: nat)
    requires var v := Numeric(entries);
             p < |v| && q < r < |v| && p != q && p != r &&
             v[q].level.value == v[r].level.value &&
             (forall j :: 0 <= j < |v| && j != p ==> v[j].level.value < v[p].level.value) &&
             (forall j :: 0 <= j < |v| && j != p && j != q && j != r ==> v[j].level.value < v[q].level.value)
    ensures var v := Numeric(entries);
            GetArchetype(entries) == Lookup(PairKey(Name(v[p].key), Name(v[q].key)))
  {
    ArchetypeOfTopTwo(entries);
    TiedRunnerUp(Numeric(entries), p, q, r);
  }
}
