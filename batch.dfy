/** The three batch operations (profit edit, reinvest, renew) as a
    specification: one step per requested id against the current table,
    the per-id outcomes, and the reply built from them. */
module Batch {
  import opened JsValues
  import opened Accounts

  const NotFound: string := "Usuário não encontrado"
  const ZeroBalance: string := "Saldo zerado"

  datatype Op = Edit(updates: Updates) | Reinvest | Renew

  /** An entry of `errors`: `{userId, error}`. */
  datatype ErrorEntry = ErrorEntry(userId: string, error: string)

  /** An entry of `skippedUsers`: `{userId, name, reason}`. */
  datatype SkippedUser = SkippedUser(userId: string, name: string, reason: string)

  /** Where one requested id lands: `results`, `skippedUsers` or `errors`. */
  datatype Outcome = Updated(user: Account) | Skipped(skip: SkippedUser) | Failed(failure: ErrorEntry)

  /** The table after one id, and that id's outcome. */
  datatype Stepped = Stepped(table: seq<Account>, outcome: Outcome)

  /** The table after a prefix of the ids, and the outcome of each id. */
  datatype Trace = Trace(table: seq<Account>, outcomes: seq<Outcome>)

  /** `{data, error, partialSuccess, skippedUsers}`; `partialSuccess` is
      present only when there were errors. */
  datatype BatchReply = BatchReply(
    data: seq<Account>,
    error: Option<string>,
    partialSuccess: Option<bool>,
    skippedUsers: seq<SkippedUser>)

  /** The record an operation stores for an eligible account. */
  function Apply(op: Op, u: Account, now: Stamp): (r: Account)
    ensures r.id == u.id && r.name == u.name
  {
    match op
    case Edit(upd) => BatchEdited(u, upd, now)
    case Reinvest => Reinvested(u, now)
    case Renew => Renewed(u, now)
  }

  /** One iteration of the loop body for `id`. */
  function Step(t: seq<Account>, id: string, op: Op, now: Stamp): (r: Stepped)
    ensures |r.table| == |t|
    ensures forall k :: 0 <= k < |t| ==> r.table[k].id == t[k].id && r.table[k].name == t[k].name
    ensures forall k :: 0 <= k < |t| && k != FindIndex(t, id) ==> r.table[k] == t[k]
  {
    var i := FindIndex(t, id);
    if i == -1 then Stepped(t, Failed(ErrorEntry(id, NotFound)))
    else if Ineligible(t[i]) then Stepped(t, Skipped(SkippedUser(id, t[i].name, ZeroBalance)))
    else
      var u := Apply(op, t[i], now);
      Stepped(t[i := u], Updated(u))
  }

  /** The whole loop over `ids`, strictly in order, each id against the
      table as the previous ids left it. The table keeps its length and
      the ids at each position, and there is one outcome per id. */
  function Run(t: seq<Account>, ids: seq<string>, op: Op, now: Stamp): (r: Trace)
    ensures |r.table| == |t| && |r.outcomes| == |ids|
    ensures forall k :: 0 <= k < |t| ==> r.table[k].id == t[k].id && r.table[k].name == t[k].name
    decreases |ids|
  {
    if ids == [] then Trace(t, [])
    else
      var prev := Run(t, ids[..|ids| - 1], op, now);
      var s := Step(prev.table, ids[|ids| - 1], op, now);
      Trace(s.table, prev.outcomes + [s.outcome])
  }

  /** `results`: the stored records, in order; a record is in it exactly
      when some outcome is `Updated` with it. */
  function UpdatedOf(os: seq<Outcome>): (r: seq<Account>)
    ensures |r| <= |os|
    ensures forall u :: u in r <==> Updated(u) in os
  {
    if os == [] then []
    else
      var init, o := os[..|os| - 1], os[|os| - 1];
      assert os == init + [o];
      UpdatedOf(init) + (if o.Updated? then [o.user] else [])
  }

  /** `skippedUsers`: the skipped entries, in order. */
  function SkippedOf(os: seq<Outcome>): (r: seq<SkippedUser>)
    ensures |r| <= |os|
    ensures forall u :: u in r <==> Skipped(u) in os
  {
    if os == [] then []
    else
      var init, o := os[..|os| - 1], os[|os| - 1];
      assert os == init + [o];
      SkippedOf(init) + (if o.Skipped? then [o.skip] else [])
  }

  /** `errors`: the failures, in order. */
  function FailedOf(os: seq<Outcome>): (r: seq<ErrorEntry>)
    ensures |r| <= |os|
    ensures forall e :: e in r <==> Failed(e) in os
  {
    if os == [] then []
    else
      var init, o := os[..|os| - 1], os[|os| - 1];
      assert os == init + [o];
      FailedOf(init) + (if o.Failed? then [o.failure] else [])
  }

  /** The not-found errors that requesting `ids` against `t` produces. */
  function Missing(t: seq<Account>, ids: seq<string>): seq<ErrorEntry> {
    if ids == [] then []
    else
      var x := ids[|ids| - 1];
      Missing(t, ids[..|ids| - 1]) + (if FindIndex(t, x) == -1 then [ErrorEntry(x, NotFound)] else [])
  }

  /** `Erro ao <verb> K de N usuários` */
  function ErrorMessage(verb: string, k: nat, n: nat): (s: string)
    ensures var head := "Erro ao " + verb + " ";
            && |head| < |s| && s[..|head|] == head
            && s[|head|..] == NatToString(k) + " de " + NatToString(n) + " usuários"
  {
    "Erro ao " + verb + " " + NatToString(k) + " de " + NatToString(n) + " usuários"
  }

  /** The message determines both counts: two messages for the same verb
      are equal only when their counts are. */
  lemma ErrorMessageCounts(verb: string, k1: nat, n1: nat, k2: nat, n2: nat)
    requires ErrorMessage(verb, k1, n1) == ErrorMessage(verb, k2, n2)
    ensures k1 == k2 && n1 == n2
  {
    var head, sep, tail := "Erro ao " + verb + " ", " de ", " usuários";
    assert sep[0] == ' ' && tail[0] == ' ';
    var s := ErrorMessage(verb, k1, n1);
    assert NatToString(k1) + sep + NatToString(n1) + tail == s[|head|..]
        == NatToString(k2) + sep + NatToString(n2) + tail;
    CountsFromDigits(NatToString(k1), NatToString(n1), NatToString(k2), NatToString(n2), sep, tail);
    NatToStringRoundTrip(k1);
    NatToStringRoundTrip(k2);
    NatToStringRoundTrip(n1);
    NatToStringRoundTrip(n2);
  }

  /** Two digit runs, each closed by a non-digit, are read off a string
      unambiguously. */
  lemma CountsFromDigits(d1: string, e1: string, d2: string, e2: string, sep: string, tail: string)
    requires IsDigits(d1) && IsDigits(e1) && IsDigits(d2) && IsDigits(e2)
    requires |sep| > 0 && |tail| > 0 && !('0' <= sep[0] <= '9') && !('0' <= tail[0] <= '9')
    requires d1 + sep + e1 + tail == d2 + sep + e2 + tail
    ensures d1 == d2 && e1 == e2
  {
    var x1, x2 := sep + e1 + tail, sep + e2 + tail;
    assert d1 + x1 == d1 + sep + e1 + tail && d2 + x2 == d2 + sep + e2 + tail;
    assert x1[0] == sep[0] && x2[0] == sep[0];
    DigitsPrefix(d1, x1, d2, x2);
    assert e1 + tail == x1[|sep|..] && e2 + tail == x2[|sep|..];
    DigitsPrefix(e1, tail, e2, tail);
  }

  /** A run of digits followed by a non-digit is read off unambiguously. */
  lemma DigitsPrefix(a: string, x: string, b: string, y: string)
    requires IsDigits(a) && IsDigits(b) && a + x == b + y
    requires |x| > 0 && |y| > 0 && !('0' <= x[0] <= '9') && !('0' <= y[0] <= '9')
    ensures a == b && x == y
  {
    var c := a + x;
    assert forall i :: 0 <= i < |a| ==> c[i] == a[i];
    assert forall i :: 0 <= i < |b| ==> c[i] == b[i];
    assert c[|a|] == x[0] && c[|b|] == y[0];
    assert |a| == |b|;
    assert a == (a + x)[..|a|] == (b + y)[..|b|] == b;
    assert x == (a + x)[|a|..] == (b + y)[|b|..] == y;
  }

  /** The reply assembled after the loop: the stored records and the
      skipped accounts always; an error, with the count of failures among
      all `n` ids, and `partialSuccess` exactly when some id failed. */
  function Reply(verb: string, results: seq<Account>, errors: seq<ErrorEntry>,
                 skipped: seq<SkippedUser>, n: nat): (r: BatchReply)
    ensures r.data == results && r.skippedUsers == skipped
    ensures r.error.Some? <==> |errors| > 0
    ensures r.partialSuccess.Some? <==> |errors| > 0
    ensures r.error.Some? ==> r.error.value == ErrorMessage(verb, |errors|, n)
    ensures r.partialSuccess.Some? ==> (r.partialSuccess.value <==> |results| > 0)
  {
    if |errors| > 0 then
      BatchReply(results, Some(ErrorMessage(verb, |errors|, n)), Some(|results| > 0), skipped)
    else
      BatchReply(results, None, None, skipped)
  }

  /** The reply of a trace: its three views assembled by `Reply`. */
  function ReplyOf(verb: string, tr: Trace, n: nat): (r: BatchReply)
    ensures r.data == UpdatedOf(tr.outcomes) && r.skippedUsers == SkippedOf(tr.outcomes)
    ensures r.error.Some? <==> exists j :: 0 <= j < |tr.outcomes| && tr.outcomes[j].Failed?
    ensures r.error.Some? ==> r.error.value == ErrorMessage(verb, |FailedOf(tr.outcomes)|, n)
  {
    FailedOfNonEmpty(tr.outcomes);
    Reply(verb, UpdatedOf(tr.outcomes), FailedOf(tr.outcomes), SkippedOf(tr.outcomes), n)
  }

  /** One more id is one more step. */
  lemma RunSnoc(t: seq<Account>, ids: seq<string>, x: string, op: Op, now: Stamp)
    ensures var prev := Run(t, ids, op, now);
            var s := Step(prev.table, x, op, now);
            Run(t, ids + [x], op, now) == Trace(s.table, prev.outcomes + [s.outcome])
  {
    assert (ids + [x])[..|ids|] == ids;
  }

  /** The loop's view: after position `n` comes one more step. */
  lemma RunExtend(t: seq<Account>, ids: seq<string>, n: nat, op: Op, now: Stamp)
    requires n < |ids|
    ensures var prev := Run(t, ids[..n], op, now);
            var s := Step(prev.table, ids[n], op, now);
            Run(t, ids[..n + 1], op, now) == Trace(s.table, prev.outcomes + [s.outcome])
  {
    assert ids[..n + 1] == ids[..n] + [ids[n]];
    RunSnoc(t, ids[..n], ids[n], op, now);
  }

  /** One more outcome extends exactly one of the three lists. */
  lemma ViewsSnoc(os: seq<Outcome>, o: Outcome)
    ensures UpdatedOf(os + [o]) == UpdatedOf(os) + (if o.Updated? then [o.user] else [])
    ensures SkippedOf(os + [o]) == SkippedOf(os) + (if o.Skipped? then [o.skip] else [])
    ensures FailedOf(os + [o]) == FailedOf(os) + (if o.Failed? then [o.failure] else [])
  {
    assert (os + [o])[..|os|] == os;
  }

  /** Each outcome lands in exactly one of the three lists. */
  lemma {:induction false} PartitionSizes(os: seq<Outcome>)
    ensures |UpdatedOf(os)| + |SkippedOf(os)| + |FailedOf(os)| == |os|
    decreases |os|
  {
    if os != [] {
      PartitionSizes(os[..|os| - 1]);
    }
  }

  /** One more id leaves the earlier outcomes as they were. */
  lemma RunSnocKeepsOutcomes(t: seq<Account>, ids: seq<string>, x: string, op: Op, now: Stamp)
    ensures Run(t, ids + [x], op, now).outcomes[..|ids|] == Run(t, ids, op, now).outcomes
  {
    RunSnoc(t, ids, x, op, now);
    var os := Run(t, ids, op, now).outcomes;
    var o := Step(Run(t, ids, op, now).table, x, op, now).outcome;
    assert (os + [o])[..|os|] == os;
  }

  /** The outcome of the id at position `j` is one step against the table
      the earlier ids left. */
  lemma {:induction false} OutcomeAt(t: seq<Account>, ids: seq<string>, op: Op, now: Stamp, j: nat)
    requires j < |ids|
    ensures Run(t, ids, op, now).outcomes[j]
         == Step(Run(t, ids[..j], op, now).table, ids[j], op, now).outcome
    decreases |ids|
  {
    var init, x := ids[..|ids| - 1], ids[|ids| - 1];
    assert ids == init + [x];
    if j == |init| {
      RunSnoc(t, init, x, op, now);
      var prev := Run(t, init, op, now);
      var o := Step(prev.table, x, op, now).outcome;
      assert (prev.outcomes + [o])[j] == o;
    } else {
      RunSnocKeepsOutcomes(t, init, x, op, now);
      OutcomeAt(t, init, op, now, j);
      assert init[..j] == ids[..j] && init[j] == ids[j];
      var full := Run(t, ids, op, now).outcomes;
      assert full[j] == full[..|init|][j];
    }
  }

  /** Lookups in the table while a batch runs find what the original table
      gives: the positions of ids never move. */
  lemma FindIndexDuringRun(t: seq<Account>, ids: seq<string>, op: Op, now: Stamp, x: string)
    ensures FindIndex(Run(t, ids, op, now).table, x) == FindIndex(t, x)
  {
    FindIndexSameIds(Run(t, ids, op, now).table, t, x);
  }

  /** An entry that no requested id resolves to is left as it was: this
      covers accounts whose id was not requested and later duplicates of
      an id inside the table. */
  lemma {:induction false} UntargetedUnchanged(t: seq<Account>, ids: seq<string>, op: Op, now: Stamp, k: nat)
    requires k < |t|
    requires forall j :: 0 <= j < |ids| ==> FindIndex(t, ids[j]) != k
    ensures Run(t, ids, op, now).table[k] == t[k]
    decreases |ids|
  {
    if ids != [] {
      var init := ids[..|ids| - 1];
      UntargetedUnchanged(t, init, op, now, k);
      FindIndexDuringRun(t, init, op, now, ids[|ids| - 1]);
    }
  }

  /** An account whose balance is `0` or `null` is never modified by a
      batch, however often it is requested. */
  lemma {:induction false} IneligibleUnchanged(t: seq<Account>, ids: seq<string>, op: Op, now: Stamp, k: nat)
    requires k < |t| && Ineligible(t[k])
    ensures Run(t, ids, op, now).table[k] == t[k]
    decreases |ids|
  {
    if ids != [] {
      IneligibleUnchanged(t, ids[..|ids| - 1], op, now, k);
    }
  }

  /** Where the id at position `j` lands: in `errors` exactly when the
      table has no account with that id; in `skippedUsers`, with the
      account's name and the reason `Saldo zerado`, when the account it
      resolves to has balance `0` or `null`; and in `results`, with the
      operation applied to the account as loaded, when that account is
      eligible and no earlier id resolved to it. */
  lemma Classify(t: seq<Account>, ids: seq<string>, op: Op, now: Stamp, j: nat)
    requires j < |ids|
    ensures var o := Run(t, ids, op, now).outcomes[j];
            var i := FindIndex(t, ids[j]);
            && (o.Failed? <==> i == -1)
            && (i == -1 ==> o == Failed(ErrorEntry(ids[j], NotFound)))
            && (i >= 0 && Ineligible(t[i]) ==> o == Skipped(SkippedUser(ids[j], t[i].name, ZeroBalance)))
            && (i >= 0 && !Ineligible(t[i]) && (forall j' :: 0 <= j' < j ==> FindIndex(t, ids[j']) != i)
                ==> o == Updated(Apply(op, t[i], now)))
  {
    OutcomeAt(t, ids, op, now, j);
    var pre := ids[..j];
    var tj := Run(t, pre, op, now).table;
    var o := Step(tj, ids[j], op, now).outcome;
    FindIndexDuringRun(t, pre, op, now, ids[j]);
    var i := FindIndex(t, ids[j]);
    StepCases(tj, ids[j], op, now);
    if i == -1 {
      assert o == Failed(ErrorEntry(ids[j], NotFound));
    } else if Ineligible(t[i]) {
      IneligibleUnchanged(t, pre, op, now, i);
      assert o == Skipped(SkippedUser(ids[j], t[i].name, ZeroBalance));
    } else {
      assert !o.Failed?;
      if forall j' :: 0 <= j' < j ==> FindIndex(t, ids[j']) != i {
        FirstVisitUnchanged(t, ids, op, now, j, i);
        assert o == Updated(Apply(op, t[i], now));
      }
    }
  }

  /** Before the first id that resolves to entry `i`, the entry is as
      loaded. */
  lemma FirstVisitUnchanged(t: seq<Account>, ids: seq<string>, op: Op, now: Stamp, j: nat, i: nat)
    requires j < |ids| && i < |t|
    requires forall j' :: 0 <= j' < j ==> FindIndex(t, ids[j']) != i
    ensures Run(t, ids[..j], op, now).table[i] == t[i]
  {
    var pre := ids[..j];
    forall j' | 0 <= j' < |pre| ensures FindIndex(t, pre[j']) != i {
      assert pre[j'] == ids[j'];
    }
    UntargetedUnchanged(t, pre, op, now, i);
  }

  /** After a batch, entry `k` holds the record of the last `Updated`
      outcome among the ids that resolve to it. */
  lemma {:induction false} LastUpdateStored(t: seq<Account>, ids: seq<string>, op: Op, now: Stamp, k: nat, j: nat)
    requires k < |t| && j < |ids| && FindIndex(t, ids[j]) == k
    requires Run(t, ids, op, now).outcomes[j].Updated?
    requires forall j' :: j < j' < |ids| && FindIndex(t, ids[j']) == k ==> !Run(t, ids, op, now).outcomes[j'].Updated?
    ensures Run(t, ids, op, now).table[k] == Run(t, ids, op, now).outcomes[j].user
    decreases |ids|
  {
    var init, x := ids[..|ids| - 1], ids[|ids| - 1];
    var prev := Run(t, init, op, now);
    FindIndexDuringRun(t, init, op, now, x);
    if j < |init| {
      var os := Run(t, ids, op, now).outcomes;
      forall j' | j <= j' < |init| ensures init[j'] == ids[j'] && prev.outcomes[j'] == os[j'] {
        assert os == prev.outcomes + [os[|init|]];
      }
      LastUpdateStored(t, init, op, now, k, j);
      StepKeeps(prev.table, x, op, now, k);
    } else {
      StepCases(prev.table, x, op, now);
    }
  }

  /** An entry that no id updated keeps its loaded value. */
  lemma {:induction false} NoUpdateUnchanged(t: seq<Account>, ids: seq<string>, op: Op, now: Stamp, k: nat)
    requires k < |t|
    requires forall j :: 0 <= j < |ids| && FindIndex(t, ids[j]) == k ==> !Run(t, ids, op, now).outcomes[j].Updated?
    ensures Run(t, ids, op, now).table[k] == t[k]
    decreases |ids|
  {
    if ids != [] {
      var init, x := ids[..|ids| - 1], ids[|ids| - 1];
      var prev := Run(t, init, op, now);
      var os := Run(t, ids, op, now).outcomes;
      FindIndexDuringRun(t, init, op, now, x);
      forall j | 0 <= j < |init| ensures init[j] == ids[j] && prev.outcomes[j] == os[j] {
        assert os == prev.outcomes + [os[|init|]];
      }
      NoUpdateUnchanged(t, init, op, now, k);
      StepKeeps(prev.table, x, op, now, k);
    }
  }

  /** A step that does not update entry `k` leaves it as it was. */
  lemma StepKeeps(t: seq<Account>, x: string, op: Op, now: Stamp, k: nat)
    requires k < |t|
    requires FindIndex(t, x) == k ==> !Step(t, x, op, now).outcome.Updated?
    ensures Step(t, x, op, now).table[k] == t[k]
  {
    StepCases(t, x, op, now);
  }

  /** An eligible account that exactly one listed id resolves to ends up
      holding the record the operation makes of it, and that record is the
      id's entry in `results`. */
  lemma ListedOnce(t: seq<Account>, ids: seq<string>, op: Op, now: Stamp, j: nat, k: nat)
    requires j < |ids| && k < |t| && FindIndex(t, ids[j]) == k && !Ineligible(t[k])
    requires forall j' :: 0 <= j' < |ids| && j' != j ==> FindIndex(t, ids[j']) != k
    ensures Run(t, ids, op, now).outcomes[j] == Updated(Apply(op, t[k], now))
    ensures Run(t, ids, op, now).table[k] == Apply(op, t[k], now)
  {
    Classify(t, ids, op, now, j);
    LastUpdateStored(t, ids, op, now, k, j);
  }

  /** An account listed once in an edit batch stores the profit rule's
      rate and balance when a rate is given, and is only restamped
      otherwise. */
  lemma EditedOnce(t: seq<Account>, ids: seq<string>, upd: Updates, now: Stamp, j: nat, k: nat)
    requires j < |ids| && k < |t| && FindIndex(t, ids[j]) == k && !Ineligible(t[k])
    requires forall j' :: 0 <= j' < |ids| && j' != j ==> FindIndex(t, ids[j']) != k
    ensures var w := Run(t, ids, Edit(upd), now).table[k];
            var p := OrZero(t[k].monthlyProfit) + ProfitDelta(upd);
            && (ProfitGiven(upd) ==> w.monthlyProfit == Val(p) && w.balance == Val(Grown(Base(t[k]), p)))
            && (!ProfitGiven(upd) ==> w == t[k].(updatedAt := Some(now)))
            && w.initialBalance == t[k].initialBalance && w.accumulatedProfit == t[k].accumulatedProfit
  {
    ListedOnce(t, ids, Edit(upd), now, j, k);
    EditRule(t[k], upd, now);
  }

  /** An id listed twice, against any table, is applied twice: the second
      time to the record the first one stored, as long as the account stays
      eligible; both records go to `results`. */
  lemma ListedTwice(t: seq<Account>, ids: seq<string>, op: Op, now: Stamp, j1: nat, j2: nat, k: nat)
    requires j1 < j2 < |ids| && k < |t| && FindIndex(t, ids[j1]) == k && FindIndex(t, ids[j2]) == k
    requires forall j' :: 0 <= j' < |ids| && j' != j1 && j' != j2 ==> FindIndex(t, ids[j']) != k
    requires !Ineligible(t[k]) && !Ineligible(Apply(op, t[k], now))
    ensures var w1 := Apply(op, t[k], now);
            var tr := Run(t, ids, op, now);
            && tr.outcomes[j1] == Updated(w1)
            && tr.outcomes[j2] == Updated(Apply(op, w1, now))
            && tr.table[k] == Apply(op, w1, now)
  {
    var pre := ids[..j2];
    forall j' | 0 <= j' < |pre| && j' != j1
      ensures FindIndex(t, pre[j']) != k
    {
      assert pre[j'] == ids[j'];
    }
    assert pre[j1] == ids[j1];
    ListedOnce(t, pre, op, now, j1, k);
    Classify(t, ids, op, now, j1);
    OutcomeAt(t, ids, op, now, j2);
    FindIndexDuringRun(t, pre, op, now, ids[j2]);
    StepCases(Run(t, pre, op, now).table, ids[j2], op, now);
    LastUpdateStored(t, ids, op, now, k, j2);
  }

  /** What one step does, by the account it finds for the id. */
  lemma StepCases(t: seq<Account>, x: string, op: Op, now: Stamp)
    ensures var i := FindIndex(t, x);
            var s := Step(t, x, op, now);
            && (i == -1 ==> s == Stepped(t, Failed(ErrorEntry(x, NotFound))))
            && (i >= 0 && Ineligible(t[i]) ==> s == Stepped(t, Skipped(SkippedUser(x, t[i].name, ZeroBalance))))
            && (i >= 0 && !Ineligible(t[i]) ==>
                  s == Stepped(t[i := Apply(op, t[i], now)], Updated(Apply(op, t[i], now))))
  {
  }

  /** The error list is exactly the not-found ids, in request order; it
      depends on the ids in the table and on nothing the batch changes. */
  lemma {:induction false} FailuresAreMissing(t: seq<Account>, ids: seq<string>, op: Op, now: Stamp)
    ensures FailedOf(Run(t, ids, op, now).outcomes) == Missing(t, ids)
    decreases |ids|
  {
    if ids != [] {
      var init := ids[..|ids| - 1];
      var x := ids[|ids| - 1];
      assert ids == init + [x];
      FailuresAreMissing(t, init, op, now);
      FindIndexDuringRun(t, init, op, now, x);
      RunSnoc(t, init, x, op, now);
      var prev := Run(t, init, op, now);
      ViewsSnoc(prev.outcomes, Step(prev.table, x, op, now).outcome);
      StepCases(prev.table, x, op, now);
    }
  }

  lemma {:induction false} MissingEmpty(t: seq<Account>, ids: seq<string>)
    ensures |Missing(t, ids)| > 0 <==> Targeted(t, ids, -1)
    decreases |ids|
  {
    if ids != [] {
      var init, x := ids[..|ids| - 1], ids[|ids| - 1];
      MissingEmpty(t, init);
      assert ids == init + [x];
      TargetedSnoc(t, init, x, -1);
    }
  }

  /** The outcomes in `results` are the `Updated` ones. */
  lemma {:induction false} UpdatedOfNonEmpty(os: seq<Outcome>)
    ensures |UpdatedOf(os)| > 0 <==> exists j :: 0 <= j < |os| && os[j].Updated?
    decreases |os|
  {
    if os != [] {
      var init := os[..|os| - 1];
      UpdatedOfNonEmpty(init);
      if exists j :: 0 <= j < |init| && init[j].Updated? {
        var j :| 0 <= j < |init| && init[j].Updated?;
        assert os[j] == init[j];
      }
      if exists j :: 0 <= j < |os| && os[j].Updated? {
        var j :| 0 <= j < |os| && os[j].Updated?;
        if j < |init| {
          assert init[j] == os[j];
        }
      }
    }
  }

  /** `errors` is non-empty exactly when some outcome is a failure. */
  lemma {:induction false} FailedOfNonEmpty(os: seq<Outcome>)
    ensures |FailedOf(os)| > 0 <==> exists j :: 0 <= j < |os| && os[j].Failed?
    decreases |os|
  {
    if os != [] {
      var init := os[..|os| - 1];
      FailedOfNonEmpty(init);
      if exists j :: 0 <= j < |init| && init[j].Failed? {
        var j :| 0 <= j < |init| && init[j].Failed?;
        assert os[j] == init[j];
      }
      if exists j :: 0 <= j < |os| && os[j].Failed? {
        var j :| 0 <= j < |os| && os[j].Failed?;
        if j < |init| {
          assert init[j] == os[j];
        }
      }
    }
  }

  /** Some account of the table that a requested id resolves to is
      eligible. */
  predicate SomeEligible(t: seq<Account>, ids: seq<string>) {
    exists j :: 0 <= j < |ids| && 0 <= FindIndex(t, ids[j]) && !Ineligible(t[FindIndex(t, ids[j])])
  }

  /** `results` is non-empty exactly when some requested id resolves to an
      account that is eligible in the table as it was before the batch. */
  lemma ResultsNonEmpty(t: seq<Account>, ids: seq<string>, op: Op, now: Stamp)
    ensures |UpdatedOf(Run(t, ids, op, now).outcomes)| > 0 <==> SomeEligible(t, ids)
  {
    var os := Run(t, ids, op, now).outcomes;
    UpdatedOfNonEmpty(os);
    if exists j :: 0 <= j < |os| && os[j].Updated? {
      var j :| 0 <= j < |os| && os[j].Updated?;
      Classify(t, ids, op, now, j);
      assert 0 <= FindIndex(t, ids[j]) && !Ineligible(t[FindIndex(t, ids[j])]);
    }
    if SomeEligible(t, ids) {
      var j :| 0 <= j < |ids| && 0 <= FindIndex(t, ids[j]) && !Ineligible(t[FindIndex(t, ids[j])]);
      var j0 := FirstResolving(t, ids, FindIndex(t, ids[j]), j);
      Classify(t, ids, op, now, j0);
      assert os[j0].Updated?;
    }
  }

  /** The first position whose id resolves to table index `i`, given one
      such position `j`. */
  lemma {:induction false} FirstResolving(t: seq<Account>, ids: seq<string>, i: int, j: nat) returns (j0: nat)
    requires j < |ids| && FindIndex(t, ids[j]) == i
    ensures j0 <= j && FindIndex(t, ids[j0]) == i
    ensures forall j' :: 0 <= j' < j0 ==> FindIndex(t, ids[j']) != i
    decreases j
  {
    if exists j' :: 0 <= j' < j && FindIndex(t, ids[j']) == i {
      var j' :| 0 <= j' < j && FindIndex(t, ids[j']) == i;
      j0 := FirstResolving(t, ids, i, j');
    } else {
      j0 := j;
    }
  }

  /** The reply: an error message and `partialSuccess` appear exactly when
      some requested id is not in the table; the message counts those ids
      (K) out of all requested (N); `partialSuccess` is whether anything
      was updated, which is whether some requested account was eligible;
      `data` and `skippedUsers` are the lists the loop built. */
  lemma ReplyMeaning(verb: string, t: seq<Account>, ids: seq<string>, op: Op, now: Stamp)
    ensures var tr := Run(t, ids, op, now);
            var r := ReplyOf(verb, tr, |ids|);
            && (r.error.Some? <==> exists j :: 0 <= j < |ids| && FindIndex(t, ids[j]) == -1)
            && (r.error.Some? ==> r.error.value == ErrorMessage(verb, |Missing(t, ids)|, |ids|))
            && r.partialSuccess == (if r.error.Some? then Some(SomeEligible(t, ids)) else None)
            && r.data == UpdatedOf(tr.outcomes)
            && r.skippedUsers == SkippedOf(tr.outcomes)
            && |r.data| + |r.skippedUsers| + |Missing(t, ids)| == |ids|
  {
    var tr := Run(t, ids, op, now);
    FailuresAreMissing(t, ids, op, now);
    MissingEmpty(t, ids);
    ResultsNonEmpty(t, ids, op, now);
    PartitionSizes(tr.outcomes);
  }

  /** Some requested id resolves to position `k`. */
  predicate Targeted(t: seq<Account>, ids: seq<string>, k: int) {
    exists j :: 0 <= j < |ids| && FindIndex(t, ids[j]) == k
  }

  /** Reinvest and renew, unlike the edit, do the same thing however often
      an account is requested: each entry ends up reset once if some id
      resolves to it and it is eligible, and untouched otherwise. */
  lemma {:induction false} ResetClosedForm(t: seq<Account>, ids: seq<string>, op: Op, now: Stamp, k: nat)
    requires op.Reinvest? || op.Renew?
    requires TableOk(t) && k < |t|
    ensures Run(t, ids, op, now).table[k]
         == if Targeted(t, ids, k) && !Ineligible(t[k]) then Apply(op, t[k], now) else t[k]
    decreases |ids|
  {
    if ids != [] {
      var init := ids[..|ids| - 1];
      var x := ids[|ids| - 1];
      var prev := Run(t, init, op, now).table;
      assert ids == init + [x];
      RunSnoc(t, init, x, op, now);
      ResetClosedForm(t, init, op, now, k);
      FindIndexDuringRun(t, init, op, now, x);
      TargetedSnoc(t, init, x, k);
      ResetStep(t[k], prev, x, op, now, k, Targeted(t, init, k), FindIndex(t, x) == k);
    }
  }

  /** One step of a reset batch at position `k`, given the closed form
      before it. */
  lemma ResetStep(orig: Account, prev: seq<Account>, x: string, op: Op, now: Stamp, k: nat,
                  before: bool, hit: bool)
    requires op.Reinvest? || op.Renew?
    requires k < |prev| && BaselineOk(orig) && hit == (FindIndex(prev, x) == k)
    requires prev[k] == if before && !Ineligible(orig) then Apply(op, orig, now) else orig
    ensures Step(prev, x, op, now).table[k]
         == if (before || hit) && !Ineligible(orig) then Apply(op, orig, now) else orig
  {
    if hit {
      ResetAgain(prev[k], orig, op, now);
      StepCases(prev, x, op, now);
    }
  }

  /** Appending `x` to the requested ids adds `x`'s own index to the
      targeted positions. */
  lemma TargetedSnoc(t: seq<Account>, ids: seq<string>, x: string, k: int)
    ensures Targeted(t, ids + [x], k) <==> Targeted(t, ids, k) || FindIndex(t, x) == k
  {
    var ids' := ids + [x];
    if Targeted(t, ids', k) && FindIndex(t, x) != k {
      var j :| 0 <= j < |ids'| && FindIndex(t, ids'[j]) == k;
      assert j < |ids| && ids[j] == ids'[j];
    }
    if Targeted(t, ids, k) {
      var j :| 0 <= j < |ids| && FindIndex(t, ids[j]) == k;
      assert ids'[j] == ids[j];
    }
    if FindIndex(t, x) == k {
      assert ids'[|ids|] == x;
    }
  }

  /** Resetting an account that is either as loaded or already reset
      gives the reset of the loaded one, and never finds a reset account
      ineligible. */
  lemma ResetAgain(cur: Account, orig: Account, op: Op, now: Stamp)
    requires op.Reinvest? || op.Renew?
    requires BaselineOk(orig)
    requires cur == orig || (!Ineligible(orig) && cur == Apply(op, orig, now))
    ensures Ineligible(cur) <==> Ineligible(orig)
    ensures !Ineligible(cur) ==> Apply(op, cur, now) == Apply(op, orig, now)
  {
    if !Ineligible(orig) {
      if op.Reinvest? {
        ReinvestKeepsEligibility(orig, now, now);
      } else {
        RenewKeepsEligibility(orig, now, now);
      }
    }
  }

  /** A batch's table changes keep every baseline neither `0` nor `null`. */
  lemma {:induction false} RunKeepsBaselines(t: seq<Account>, ids: seq<string>, op: Op, now: Stamp)
    requires TableOk(t)
    ensures TableOk(Run(t, ids, op, now).table)
    decreases |ids|
  {
    if ids != [] {
      var init := ids[..|ids| - 1];
      var x := ids[|ids| - 1];
      assert ids == init + [x];
      RunSnoc(t, init, x, op, now);
      RunKeepsBaselines(t, init, op, now);
      var prev := Run(t, init, op, now).table;
      StepCases(prev, x, op, now);
      var i := FindIndex(prev, x);
      if i >= 0 && !Ineligible(prev[i]) {
        match op
        case Edit(upd) =>
        case Reinvest => ReinvestKeepsEligibility(prev[i], now, now);
        case Renew =>
      }
    }
  }

  /** Reinvesting a set of accounts and then renewing the same set gives
      every account back the balance it had before the reinvest. */
  lemma ReinvestThenRenewRestoresBalances(t: seq<Account>, ids: seq<string>, now1: Stamp, now2: Stamp)
    requires TableOk(t)
    ensures var t1 := Run(t, ids, Reinvest, now1).table;
            var t2 := Run(t1, ids, Renew, now2).table;
            |t2| == |t| && forall k :: 0 <= k < |t| ==> t2[k].balance == t[k].balance
  {
    var t1 := Run(t, ids, Reinvest, now1).table;
    RunKeepsBaselines(t, ids, Reinvest, now1);
    var t2 := Run(t1, ids, Renew, now2).table;
    forall k | 0 <= k < |t|
      ensures t2[k].balance == t[k].balance
    {
      RestoredAt(t, ids, now1, now2, k);
    }
  }

  /** `ReinvestThenRenewRestoresBalances` for one entry. */
  lemma RestoredAt(t: seq<Account>, ids: seq<string>, now1: Stamp, now2: Stamp, k: nat)
    requires TableOk(t) && k < |t|
    ensures var t1 := Run(t, ids, Reinvest, now1).table;
            Run(t1, ids, Renew, now2).table[k].balance == t[k].balance
  {
    var t1 := Run(t, ids, Reinvest, now1).table;
    RunKeepsBaselines(t, ids, Reinvest, now1);
    ResetClosedForm(t, ids, Reinvest, now1, k);
    ResetClosedForm(t1, ids, Renew, now2, k);
    SameTargets(t, t1, ids, k);
    var a, a1 := t[k], t1[k];
    var a2 := Run(t1, ids, Renew, now2).table[k];
    var hit := Targeted(t, ids, k);
    assert a1 == if hit && !Ineligible(a) then Reinvested(a, now1) else a;
    assert a2 == if hit && !Ineligible(a1) then Renewed(a1, now2) else a1;
    ReinvestThenRenew(a, now1, now2);
  }

  /** Renewing the same accounts a second time, at a later time, leaves
      every record as the first renew left it, apart from its timestamp. */
  lemma RenewIdempotent(t: seq<Account>, ids: seq<string>, now1: Stamp, now2: Stamp)
    requires TableOk(t)
    ensures var t1 := Run(t, ids, Renew, now1).table;
            var t2 := Run(t1, ids, Renew, now2).table;
            |t2| == |t1| && forall k :: 0 <= k < |t1| ==> t2[k].(updatedAt := t1[k].updatedAt) == t1[k]
  {
    var t1 := Run(t, ids, Renew, now1).table;
    var t2 := Run(t1, ids, Renew, now2).table;
    forall k | 0 <= k < |t1|
      ensures t2[k].(updatedAt := t1[k].updatedAt) == t1[k]
    {
      RenewedAgainAt(t, ids, now1, now2, k);
    }
  }

  /** `RenewIdempotent` for one entry. */
  lemma RenewedAgainAt(t: seq<Account>, ids: seq<string>, now1: Stamp, now2: Stamp, k: nat)
    requires TableOk(t) && k < |t|
    ensures var t1 := Run(t, ids, Renew, now1).table;
            Run(t1, ids, Renew, now2).table[k].(updatedAt := t1[k].updatedAt) == t1[k]
  {
    var t1 := Run(t, ids, Renew, now1).table;
    RunKeepsBaselines(t, ids, Renew, now1);
    ResetClosedForm(t, ids, Renew, now1, k);
    ResetClosedForm(t1, ids, Renew, now2, k);
    SameTargets(t, t1, ids, k);
    var a, a1 := t[k], t1[k];
    var a2 := Run(t1, ids, Renew, now2).table[k];
    var hit := Targeted(t, ids, k);
    assert a1 == if hit && !Ineligible(a) then Renewed(a, now1) else a;
    assert a2 == if hit && !Ineligible(a1) then Renewed(a1, now2) else a1;
    RenewKeepsEligibility(a, now1, now2);
  }

  lemma SameTargets(t: seq<Account>, t1: seq<Account>, ids: seq<string>, k: int)
    requires |t1| == |t| && forall k' :: 0 <= k' < |t| ==> t1[k'].id == t[k'].id
    ensures Targeted(t1, ids, k) == Targeted(t, ids, k)
  {
    forall x {
      FindIndexSameIds(t1, t, x);
    }
  }

  /** An id listed twice against a one-account table is applied twice,
      the second time to the record the first one stored, as long as the
      account stays eligible; both records go to `results`. */
  lemma RunSameIdTwice(u: Account, op: Op, now: Stamp)
    requires !Ineligible(u) && !Ineligible(Apply(op, u, now))
    ensures var w1 := Apply(op, u, now);
            var w2 := Apply(op, w1, now);
            var tr := Run([u], [u.id, u.id], op, now);
            tr.table == [w2] && UpdatedOf(tr.outcomes) == [w1, w2]
  {
    var w1 := Apply(op, u, now);
    var w2 := Apply(op, w1, now);
    var ids := [u.id, u.id];
    assert ids[..1] == [u.id];
    assert [u.id][..0] == [];
    assert FindIndex([u], u.id) == 0;
    assert [u][0 := w1] == [w1];
    assert Run([u], [u.id], op, now) == Trace([w1], [Updated(w1)]);
    assert FindIndex([w1], u.id) == 0;
    assert [w1][0 := w2] == [w2];
    var tr := Run([u], ids, op, now);
    assert tr == Trace([w2], [Updated(w1), Updated(w2)]);
    assert tr.outcomes[..1] == [Updated(w1)];
    assert tr.outcomes[..1][..0] == [];
    assert UpdatedOf([Updated(w1)]) == [w1];
  }

  /** A duplicated id is applied twice: editing one account by +5 twice in
      a single batch takes it from 1000 through 1050 to 1100, and both
      intermediate records are in `results`. */
  lemma DuplicateIdAppliedTwice(u: Account, now: Stamp)
    requires u.initialBalance == Val(1000.0) && u.monthlyProfit == Val(0.0) && u.balance == Val(1000.0)
    ensures var tr := Run([u], [u.id, u.id], Edit(Updates(Some(Val(5.0)), None, None)), now);
            && tr.table[0].balance == Val(1100.0)
            && |UpdatedOf(tr.outcomes)| == 2
            && UpdatedOf(tr.outcomes)[0].balance == Val(1050.0)
            && UpdatedOf(tr.outcomes)[1].balance == Val(1100.0)
  {
    var plus5 := Updates(Some(Val(5.0)), None, None);
    Round2OfCents(105000);
    Round2OfCents(110000);
    var w1 := BatchEdited(u, plus5, now);
    assert w1.balance == Val(1050.0);
    var w2 := BatchEdited(w1, plus5, now);
    assert w2.balance == Val(1100.0);
    RunSameIdTwice(u, Edit(plus5), now);
  }
}
