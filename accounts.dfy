/** One account record as the session table holds it, the lookup by id,
    and the record rules of the service: load normalisation, the profit
    edit (single and batch), reinvest and renew. */
module Accounts {
  import opened JsValues

  /** An ISO timestamp, as read from the clock by the caller. */
  type Stamp = string

  /** The fallback baseline when an account has neither a truthy
      `initial_balance` nor a truthy `balance`. */
  const DefaultBalance: real := 1000.0

  /** A row of the `profiles` table. Numeric columns may be missing or
      `null`; `accumulatedProfit` is carried only because the single edit
      may copy it in. */
  datatype Account = Account(
    id: string,
    name: string,
    email: string,
    pixKey: Option<string>,
    balance: Num,
    initialBalance: Num,
    monthlyProfit: Num,
    accumulatedProfit: Num,
    updatedAt: Option<Stamp>)

  /** The `updates` object a caller passes to an edit. For each key,
      `None` means the key is absent and `Some(v)` that it is present with
      value `v` (possibly `undefined` or `null`). */
  datatype Updates = Updates(
    monthlyProfit: Option<Num>,
    balance: Option<Num>,
    accumulatedProfit: Option<Num>)

  /** The batch eligibility test: an account whose balance is strictly `0`
      or `null` is skipped. */
  predicate Ineligible(u: Account): (b: bool)
    ensures b <==> !Truthy(u.balance) && u.balance != Undefined
  {
    ZeroOrNull(u.balance)
  }

  /** What every account of a loaded table satisfies: its baseline is
      neither `0` nor `null`, so renewing it never makes it ineligible. */
  predicate BaselineOk(u: Account) {
    !ZeroOrNull(u.initialBalance)
  }

  predicate TableOk(t: seq<Account>) {
    forall k :: 0 <= k < |t| ==> BaselineOk(t[k])
  }

  /** `findIndex(user => user.id === id)`: the first position holding the
      id, or -1. */
  function FindIndex(t: seq<Account>, id: string): (r: int)
    ensures -1 <= r < |t|
    ensures r == -1 <==> forall k :: 0 <= k < |t| ==> t[k].id != id
    ensures r >= 0 ==> t[r].id == id && forall k :: 0 <= k < r ==> t[k].id != id
  {
    if t == [] then -1
    else if t[0].id == id then 0
    else
      var r := FindIndex(t[1..], id);
      if r == -1 then -1 else r + 1
  }

  /** The lookup sees ids only: two tables with the same ids at the same
      positions give every id the same index. */
  lemma FindIndexSameIds(t1: seq<Account>, t2: seq<Account>, id: string)
    requires |t1| == |t2|
    requires forall k :: 0 <= k < |t1| ==> t1[k].id == t2[k].id
    ensures FindIndex(t1, id) == FindIndex(t2, id)
  {
  }

  /** `initial_balance || balance || 1000`: the amount a profit
      percentage is applied to. */
  function Base(u: Account): (r: real)
    ensures r != 0.0
    ensures Truthy(u.initialBalance) ==> r == u.initialBalance.x
    ensures !Truthy(u.initialBalance) && Truthy(u.balance) ==> r == u.balance.x
    ensures !Truthy(u.initialBalance) && !Truthy(u.balance) ==> r == DefaultBalance
  {
    Or(Or(u.initialBalance, u.balance), Val(DefaultBalance)).x
  }

  /** Load normalisation of one fetched record: a copy whose
      `initial_balance` is `initial_balance || balance || 1000`. */
  function Normalize(u: Account): (r: Account)
    ensures r == u.(initialBalance := r.initialBalance)
    ensures Truthy(r.initialBalance) && BaselineOk(r)
    ensures Base(r) == Base(u)
    ensures Truthy(u.initialBalance) ==> r == u
  {
    u.(initialBalance := Val(Base(u)))
  }

  /** `updates.monthly_profit !== undefined`: reading an absent key gives
      `undefined`, so the key must be present with a value other than
      `undefined`. */
  predicate ProfitGiven(upd: Updates): (b: bool)
    ensures b <==> Override(Undefined, upd.monthlyProfit) != Undefined
  {
    upd.monthlyProfit.Some? && upd.monthlyProfit.value != Undefined
  }

  /** `parseFloat(updates.monthly_profit) || 0` for a numeric argument:
      `parseFloat` of a number is that number, and `null` or `undefined`
      read as NaN, which `|| 0` turns into 0. */
  function ProfitDelta(upd: Updates): (r: real)
    ensures r == OrZero(Override(Undefined, upd.monthlyProfit))
  {
    match upd.monthlyProfit
    case Some(Val(x)) => x
    case _ => 0.0
  }

  /** Adds `delta` percentage points to the rate of `cur` and recomputes
      the balance from the baseline, on top of the record `s` under
      construction. */
  function Reprofit(s: Account, cur: Account, delta: real): (r: Account)
    ensures r == s.(monthlyProfit := r.monthlyProfit, balance := r.balance)
    ensures r.monthlyProfit == Val(OrZero(cur.monthlyProfit) + delta)
    ensures r.balance == Val(Grown(Base(cur), r.monthlyProfit.x))
  {
    var profit := OrZero(cur.monthlyProfit) + delta;
    s.(monthlyProfit := Val(profit), balance := Val(Grown(Base(cur), profit)))
  }

  /** `base * (1 + rate / 100)`: an amount grown by a percentage rate. */
  function Grow(base: real, rate: real): real {
    base * (1.0 + rate / 100.0)
  }

  /** `parseFloat((base * (1 + rate / 100)).toFixed(2))`: the grown
      amount to the nearest cent, halves away from zero. */
  function Grown(base: real, rate: real): (r: real)
    ensures IsCents(r)
    ensures Grow(base, rate) >= 0.0 ==> Grow(base, rate) - 0.005 < r <= Grow(base, rate) + 0.005
    ensures Grow(base, rate) < 0.0 ==> Grow(base, rate) - 0.005 <= r < Grow(base, rate) + 0.005
  {
    Round2(Grow(base, rate))
  }

  /** `{...current, ...updates, updated_at}`: the spread that the single
      edit starts from. A key present in `updates` wins, even with the
      value `undefined`; every other field is the current one. */
  function Spread(u: Account, upd: Updates, now: Stamp): (r: Account)
    ensures r.id == u.id && r.name == u.name && r.email == u.email && r.pixKey == u.pixKey
    ensures r.initialBalance == u.initialBalance && r.updatedAt == Some(now)
    ensures upd.monthlyProfit.Some? ==> r.monthlyProfit == upd.monthlyProfit.value
    ensures upd.monthlyProfit.None? ==> r.monthlyProfit == u.monthlyProfit
    ensures upd.balance.Some? ==> r.balance == upd.balance.value
    ensures upd.balance.None? ==> r.balance == u.balance
    ensures upd.accumulatedProfit.Some? ==> r.accumulatedProfit == upd.accumulatedProfit.value
    ensures upd.accumulatedProfit.None? ==> r.accumulatedProfit == u.accumulatedProfit
  {
    u.(monthlyProfit := Override(u.monthlyProfit, upd.monthlyProfit),
       balance := Override(u.balance, upd.balance),
       accumulatedProfit := Override(u.accumulatedProfit, upd.accumulatedProfit),
       updatedAt := Some(now))
  }

  /** The value of a property after spreading a key that may be absent. */
  function Override(cur: Num, given: Option<Num>): Num {
    match given
    case Some(v) => v
    case None => cur
  }

  /** The record `updateUserLocal` stores: the spread of `updates`, whose
      `accumulated_profit` is stored as given; when a rate is given, the
      profit rule then overwrites rate and balance. */
  function SingleEdited(u: Account, upd: Updates, now: Stamp): (r: Account)
    ensures r.id == u.id && r.name == u.name && r.email == u.email && r.pixKey == u.pixKey
    ensures r.initialBalance == u.initialBalance && r.updatedAt == Some(now)
    ensures r.accumulatedProfit == Override(u.accumulatedProfit, upd.accumulatedProfit)
    ensures !ProfitGiven(upd) ==>
              && r.balance == Override(u.balance, upd.balance)
              && r.monthlyProfit == Override(u.monthlyProfit, upd.monthlyProfit)
  {
    var s := Spread(u, upd, now);
    if ProfitGiven(upd) then Reprofit(s, u, ProfitDelta(upd)) else s
  }

  /** The record `updateMultipleUsersLocal` stores for an eligible
      account: only the timestamp and the profit rule, no spread of
      `updates`. */
  function BatchEdited(u: Account, upd: Updates, now: Stamp): (r: Account)
    ensures r.id == u.id && r.name == u.name && r.email == u.email && r.pixKey == u.pixKey
    ensures r.initialBalance == u.initialBalance && r.accumulatedProfit == u.accumulatedProfit
    ensures r.updatedAt == Some(now)
  {
    var s := u.(updatedAt := Some(now));
    if ProfitGiven(upd) then Reprofit(s, u, ProfitDelta(upd)) else s
  }

  /** The current balance becomes the baseline and the rate is zeroed;
      the balance itself and every other field stay. */
  function Reinvested(u: Account, now: Stamp): (r: Account)
    ensures r == u.(initialBalance := r.initialBalance, monthlyProfit := r.monthlyProfit,
                    updatedAt := r.updatedAt)
    ensures r.initialBalance == u.balance && r.balance == u.balance
    ensures r.monthlyProfit == Val(0.0) && r.updatedAt == Some(now)
  {
    u.(initialBalance := u.balance, monthlyProfit := Val(0.0), updatedAt := Some(now))
  }

  /** The rate is zeroed and the balance reverts to the baseline, which
      stays; every other field stays too. */
  function Renewed(u: Account, now: Stamp): (r: Account)
    ensures r == u.(balance := r.balance, monthlyProfit := r.monthlyProfit, updatedAt := r.updatedAt)
    ensures r.balance == u.initialBalance && r.initialBalance == u.initialBalance
    ensures r.monthlyProfit == Val(0.0) && r.updatedAt == Some(now)
  {
    u.(monthlyProfit := Val(0.0), balance := u.initialBalance, updatedAt := Some(now))
  }

  /** The profit rule of both edits: the rate grows by the delta (a
      missing or zero rate counting as 0), the balance is the baseline
      grown by the new rate and rounded to cents, and the baseline itself
      stays. Without a `monthly_profit` key the batch edit only
      restamps the record. */
  lemma EditRule(u: Account, upd: Updates, now: Stamp)
    ensures ProfitGiven(upd) ==>
      var p := OrZero(u.monthlyProfit) + ProfitDelta(upd);
      && SingleEdited(u, upd, now).monthlyProfit == Val(p)
      && BatchEdited(u, upd, now).monthlyProfit == Val(p)
      && SingleEdited(u, upd, now).balance == Val(Grown(Base(u), p))
      && BatchEdited(u, upd, now).balance == Val(Grown(Base(u), p))
    ensures !ProfitGiven(upd) ==> BatchEdited(u, upd, now) == u.(updatedAt := Some(now))
    ensures ProfitGiven(upd) && Truthy(u.initialBalance) ==>
      Base(SingleEdited(u, upd, now)) == Base(u) && Base(BatchEdited(u, upd, now)) == Base(u)
  {
  }

  /** With a truthy baseline, successive edits add their deltas against the
      same baseline: two edits are one edit by the sum. */
  lemma EditsAccumulate(u: Account, d1: real, d2: real, now1: Stamp, now2: Stamp)
    requires Truthy(u.initialBalance)
    ensures
      var e1 := Updates(Some(Val(d1)), None, None);
      var e2 := Updates(Some(Val(d2)), None, None);
      var e := Updates(Some(Val(d1 + d2)), None, None);
      BatchEdited(BatchEdited(u, e1, now1), e2, now2) == BatchEdited(u, e, now2)
  {
    var e1 := Updates(Some(Val(d1)), None, None);
    var v := BatchEdited(u, e1, now1);
    assert OrZero(v.monthlyProfit) == OrZero(u.monthlyProfit) + d1;
    ReprofitSameRate(v.(updatedAt := Some(now2)), u.(updatedAt := Some(now2)), v, u, d2, d1 + d2);
  }

  /** The profit rule reads only the resulting rate and the baseline. */
  lemma ReprofitSameRate(s1: Account, s2: Account, c1: Account, c2: Account, d1: real, d2: real)
    requires s1.(monthlyProfit := s2.monthlyProfit, balance := s2.balance) == s2
    requires OrZero(c1.monthlyProfit) + d1 == OrZero(c2.monthlyProfit) + d2
    requires Base(c1) == Base(c2)
    ensures Reprofit(s1, c1, d1) == Reprofit(s2, c2, d2)
  {
    var p := OrZero(c1.monthlyProfit) + d1;
    var f := Grown(Base(c1), p);
    assert Reprofit(s1, c1, d1) == s1.(monthlyProfit := Val(p), balance := Val(f));
    assert Reprofit(s2, c2, d2) == s2.(monthlyProfit := Val(p), balance := Val(f));
  }

  /** Reinvest keeps the balance, so the account stays eligible, and its
      new baseline is that eligible balance. Reinvesting again, at any
      later time, changes nothing but the timestamp. */
  lemma ReinvestKeepsEligibility(u: Account, now: Stamp, later: Stamp)
    requires !Ineligible(u)
    ensures !Ineligible(Reinvested(u, now)) && BaselineOk(Reinvested(u, now))
    ensures Reinvested(Reinvested(u, now), later) == Reinvested(u, later)
  {
  }

  /** Renew of an account with a proper baseline leaves it eligible, and
      renewing again, at any later time, changes nothing but the
      timestamp. */
  lemma RenewKeepsEligibility(u: Account, now: Stamp, later: Stamp)
    requires BaselineOk(u)
    ensures !Ineligible(Renewed(u, now)) && BaselineOk(Renewed(u, now))
    ensures Renewed(Renewed(u, now), later) == Renewed(u, later)
  {
  }

  /** Reinvest followed by renew gives back the balance held before the
      reinvest, with a zero rate. */
  lemma ReinvestThenRenew(u: Account, now1: Stamp, now2: Stamp)
    ensures Renewed(Reinvested(u, now1), now2).balance == u.balance
    ensures Renewed(Reinvested(u, now1), now2).initialBalance == u.balance
    ensures Renewed(Reinvested(u, now1), now2).monthlyProfit == Val(0.0)
  {
  }

  /** The worked example: a fresh account with balance 1000 is normalised
      to baseline 1000; two +5 edits give 1050 and then 1100. */
  lemma TwoEditsFromThousand(u: Account, now1: Stamp, now2: Stamp)
    requires u.initialBalance == Undefined && u.monthlyProfit == Val(0.0) && u.balance == Val(1000.0)
    ensures
      var plus5 := Updates(Some(Val(5.0)), None, None);
      var v := Normalize(u);
      var w1 := SingleEdited(v, plus5, now1);
      var w2 := SingleEdited(w1, plus5, now2);
      && w1.monthlyProfit == Val(5.0) && w1.balance == Val(1050.0)
      && w2.monthlyProfit == Val(10.0) && w2.balance == Val(1100.0)
  {
    var plus5 := Updates(Some(Val(5.0)), None, None);
    var v := Normalize(u);
    assert Base(v) == 1000.0;
    Round2OfCents(105000);
    Round2OfCents(110000);
    var w1 := SingleEdited(v, plus5, now1);
    assert w1.balance == Val(Round2(Grow(1000.0, 5.0)));
    assert Base(w1) == 1000.0;
  }
}
