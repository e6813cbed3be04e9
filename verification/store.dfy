/**
 * The per-user store of growth records. The schema makes the user id unique,
 * so the store is a map from user to record; a user's record is created, in
 * its initial state, the first time the service needs it.
 */
module GrowthStore {
  import opened Traits
  import opened Growth
  import opened GrowthService

  type UserId = nat

  /** The growth collection: at most one record per user. */
  type Store = map<UserId, GrowthRecord>

  /** Every stored record is within the schema bounds. */
  predicate StoreValid(s: Store)
  {
    forall u :: u in s ==> Valid(s[u])
  }

  /** The store written to user `u` only: `u` is present afterwards and no
      other user's record has appeared, disappeared or changed. */
  predicate OnlyUserChanged(s: Store, u: UserId, s': Store)
  {
    s'.Keys == s.Keys + {u}
    && forall v :: v in s && v != u ==> s'[v] == s[v]
  }

  /** A read that may have created the record: the store afterwards and the
      user's record. */
  datatype Fetched = Fetched(store: Store, growth: GrowthRecord)

  /** `getOrCreateGrowth(userId)`: the stored record, or else a fresh record
      that is stored first. */
  function GetOrCreate(s: Store, u: UserId): (r: Fetched)
    ensures u in r.store && r.store[u] == r.growth
    ensures OnlyUserChanged(s, u, r.store)
    ensures u in s ==> r.store == s && r.growth == s[u]
    ensures u !in s ==> r.growth == InitialRecord
  {
    if u in s then Fetched(s, s[u]) else Fetched(s[u := InitialRecord], InitialRecord)
  }

  /** A second read finds the record the first one returned and changes
      nothing. */
  lemma GetOrCreateIdempotent(s: Store, u: UserId)
    ensures GetOrCreate(GetOrCreate(s, u).store, u) == GetOrCreate(s, u)
  {
  }

  /** Creating a record keeps the store within the schema bounds. */
  lemma GetOrCreateKeepsValid(s: Store, u: UserId)
    requires StoreValid(s)
    ensures StoreValid(GetOrCreate(s, u).store)
    ensures Valid(GetOrCreate(s, u).growth)
  {
    InitialRecordIsValid();
  }

  /** Saving user `u`'s record after the read touches no other user. */
  lemma SaveTouchesOnlyUser(s: Store, u: UserId, g: GrowthRecord)
    ensures OnlyUserChanged(s, u, GetOrCreate(s, u).store[u := g])
  {
  }

  /** `applyTraitXP(userId, traitKey, amount)`: the user's record is read or
      created, `amount` XP go to trait `key` with its level-up loop, the
      derived fields are recomputed and the record is saved. */
  method PerformTraitXP(s: Store, u: UserId, key: TraitKey, amount: nat, at: int) returns (s': Store, r: Outcome)
    ensures OnlyUserChanged(s, u, s') && s'[u] == r.growth
    ensures var g := GetOrCreate(s, u).growth;
            (forall k: TraitKey :: k != key ==> r.growth.traits.Get(k) == g.traits.Get(k))
            && IsSettled(OrOne(g.traits.Get(key).level), g.traits.Get(key).xp + amount, r.growth.traits.Get(key))
            && r.leveledUpTraits == (if r.growth.traits.Get(key).level > OrOne(g.traits.Get(key).level) then [key] else [])
            && r.growth.recentGrowth == Announced(g.recentGrowth, r.leveledUpTraits, at)
    ensures DerivedFieldsAgree(r.growth)
    ensures StoreValid(s) ==> StoreValid(s')
  {
    var f := GetOrCreate(s, u);
    if StoreValid(s) {
      GetOrCreateKeepsValid(s, u);
    }
    r := ApplyTraitXP(f.growth, key, amount, at);
    s' := f.store[u := r.growth];
    SaveTouchesOnlyUser(s, u, r.growth);
  }

  /** `applyAction(userId, actionType, metadata)`: the action type is matched
      to its case, the user's record is read or created, and the action's row
      of the award table is applied. An action that awards nothing (an
      unknown type, or a habit streak that does not qualify) still creates
      the record but saves nothing and reports nothing. */
  method PerformAction(s: Store, u: UserId, actionType: string, ctx: ActionContext) returns (s': Store, r: Outcome)
    ensures OnlyUserChanged(s, u, s') && s'[u] == r.growth
    ensures Awarded(GetOrCreate(s, u).growth, AwardTable(ParseAction(actionType), ctx), ctx.at, r)
    ensures AwardTable(ParseAction(actionType), ctx) != NoXP ==> DerivedFieldsAgree(r.growth)
    ensures AwardTable(ParseAction(actionType), ctx) == NoXP ==>
              s' == GetOrCreate(s, u).store && r.leveledUpTraits == []
    ensures StoreValid(s) ==> StoreValid(s')
  {
    var a := ParseAction(actionType);
    var f := GetOrCreate(s, u);
    if StoreValid(s) {
      GetOrCreateKeepsValid(s, u);
    }
    r := ApplyAction(f.growth, a, ctx);
    if AwardTable(a, ctx) == NoXP {
      s' := f.store;
    } else {
      s' := f.store[u := r.growth];
      SaveTouchesOnlyUser(s, u, r.growth);
    }
  }
}
