/** The session's account table (`localUsersData`) and the operations
    that rewrite its entries in place. */
module UserService {
  import opened JsValues
  import opened Accounts
  import opened Batch

  /** What the remote query of `profiles` gave: the rows, in the order the
      store returned them, or its error. */
  datatype Fetch = Fetched(rows: seq<Account>) | FetchFailed(error: string)

  /** `{data, error}` of the load. */
  datatype LoadReply = LoadReply(data: Option<seq<Account>>, error: Option<string>)

  /** `{data, error}` of the single edit. */
  datatype SingleReply = SingleReply(data: Option<Account>, error: Option<string>)

  class Service {
    /** `localUsersData`: the session's copy of every account. */
    var users: seq<Account>

    /** Every baseline in the table is neither `0` nor `null`. */
    ghost predicate Valid()
      reads this
    {
      TableOk(users)
    }

    /** The module starts with an empty table. */
    constructor ()
      ensures Valid() && users == []
    {
      users := [];
    }

    /** `getUsers`: on a successful fetch the table becomes the fetched
        rows, each normalised, in the same order and none dropped; on a
        failed fetch the table is kept and the error returned. */
    method GetUsers(fetched: Fetch) returns (r: LoadReply)
      requires Valid()
      modifies this
      ensures Valid()
      ensures fetched.FetchFailed? ==>
                users == old(users) && r == LoadReply(None, Some(fetched.error))
      ensures fetched.Fetched? ==>
                && |users| == |fetched.rows|
                && (forall k :: 0 <= k < |users| ==> users[k] == Normalize(fetched.rows[k]))
                && r == LoadReply(Some(users), None)
    {
      if fetched.FetchFailed? {
        return LoadReply(None, Some(fetched.error));
      }
      var data := fetched.rows;
      users := seq(|data|, k requires 0 <= k < |data| => Normalize(data[k]));
      r := LoadReply(Some(users), None);
    }

    /** `updateUserLocal`: an unknown id is an error and changes nothing;
        otherwise the account at the id's index (and only it) is replaced
        by the edited record, which is returned. No eligibility check. */
    method UpdateUserLocal(userId: string, updates: Updates, now: Stamp) returns (r: SingleReply)
      requires Valid()
      modifies this
      ensures Valid()
      ensures var i := FindIndex(old(users), userId);
              if i == -1 then
                users == old(users) && r == SingleReply(None, Some(NotFound))
              else
                && users == old(users)[i := SingleEdited(old(users)[i], updates, now)]
                && r == SingleReply(Some(users[i]), None)
    {
      var userIndex := FindIndex(users, userId);
      if userIndex == -1 {
        return SingleReply(None, Some(NotFound));
      }
      var currentUser := users[userIndex];
      var updatedUser := SingleEdited(currentUser, updates, now);
      users := users[userIndex := updatedUser];
      r := SingleReply(Some(updatedUser), None);
    }

    /** The loop shared by the three batch operations: each id in order
        against the current table, pushing to `results`, `errors` or
        `skippedUsers`. */
    method ApplyBatch(userIds: seq<string>, op: Op, now: Stamp)
      returns (results: seq<Account>, errors: seq<ErrorEntry>, skippedUsers: seq<SkippedUser>)
      requires Valid()
      modifies this
      ensures Valid()
      ensures var tr := Run(old(users), userIds, op, now);
              && users == tr.table
              && results == UpdatedOf(tr.outcomes)
              && errors == FailedOf(tr.outcomes)
              && skippedUsers == SkippedOf(tr.outcomes)
    {
      ghost var start := users;
      results, errors, skippedUsers := [], [], [];
      for n := 0 to |userIds|
        invariant var tr := Run(start, userIds[..n], op, now);
                  && users == tr.table
                  && results == UpdatedOf(tr.outcomes)
                  && errors == FailedOf(tr.outcomes)
                  && skippedUsers == SkippedOf(tr.outcomes)
      {
        var userId := userIds[n];
        ghost var prev := Run(start, userIds[..n], op, now);
        ghost var step := Step(users, userId, op, now);
        RunExtend(start, userIds, n, op, now);
        ViewsSnoc(prev.outcomes, step.outcome);
        StepCases(users, userId, op, now);
        var userIndex := FindIndex(users, userId);
        if userIndex == -1 {
          assert step == Stepped(users, Failed(ErrorEntry(userId, NotFound)));
          errors := errors + [ErrorEntry(userId, NotFound)];
          continue;
        }
        var currentUser := users[userIndex];
        if Ineligible(currentUser) {
          assert step == Stepped(users, Skipped(SkippedUser(userId, currentUser.name, ZeroBalance)));
          skippedUsers := skippedUsers + [SkippedUser(userId, currentUser.name, ZeroBalance)];
          continue;
        }
        var updatedUser := Apply(op, currentUser, now);
        assert step == Stepped(users[userIndex := updatedUser], Updated(updatedUser));
        users := users[userIndex := updatedUser];
        results := results + [updatedUser];
      }
      assert userIds[..|userIds|] == userIds;
      RunKeepsBaselines(start, userIds, op, now);
    }

    /** `updateMultipleUsersLocal` */
    method UpdateMultipleUsersLocal(userIds: seq<string>, updates: Updates, now: Stamp) returns (r: BatchReply)
      requires Valid()
      modifies this
      ensures Valid()
      ensures var tr := Run(old(users), userIds, Edit(updates), now);
              users == tr.table && r == ReplyOf("atualizar", tr, |userIds|)
    {
      var results, errors, skippedUsers := ApplyBatch(userIds, Edit(updates), now);
      r := Reply("atualizar", results, errors, skippedUsers, |userIds|);
    }

    /** `reinvestUsers` */
    method ReinvestUsers(userIds: seq<string>, now: Stamp) returns (r: BatchReply)
      requires Valid()
      modifies this
      ensures Valid()
      ensures var tr := Run(old(users), userIds, Reinvest, now);
              users == tr.table && r == ReplyOf("reinvestir", tr, |userIds|)
    {
      var results, errors, skippedUsers := ApplyBatch(userIds, Reinvest, now);
      r := Reply("reinvestir", results, errors, skippedUsers, |userIds|);
    }

    /** `renewUsers` */
    method RenewUsers(userIds: seq<string>, now: Stamp) returns (r: BatchReply)
      requires Valid()
      modifies this
      ensures Valid()
      ensures var tr := Run(old(users), userIds, Renew, now);
              users == tr.table && r == ReplyOf("renovar", tr, |userIds|)
    {
      var results, errors, skippedUsers := ApplyBatch(userIds, Renew, now);
      r := Reply("renovar", results, errors, skippedUsers, |userIds|);
    }

    /** `getLocalUsersData` */
    method GetLocalUsersData() returns (r: seq<Account>)
      ensures r == users
    {
      r := users;
    }
  }

  /** A session as a caller sees it through the contracts alone: load one
      account with balance 1000 and no baseline, edit it twice by +5, then
      reinvest and renew it. */
  method Session(u: Account, now: Stamp)
    requires u.initialBalance == Null && u.monthlyProfit == Val(0.0) && u.balance == Val(1000.0)
  {
    var s := new Service();
    var loaded := s.GetUsers(Fetched([u]));
    assert s.users == [Normalize(u)];
    var plus5 := Updates(Some(Val(5.0)), None, None);
    var first := s.UpdateUserLocal(u.id, plus5, now);
    var second := s.UpdateUserLocal(u.id, plus5, now);
    TwoEditsFromThousand(u.(initialBalance := Undefined), now, now);
    assert Normalize(u) == Normalize(u.(initialBalance := Undefined));
    assert second.data.Some? && second.data.value.balance == Val(1100.0);
    var missing := s.UpdateUserLocal(u.id + "?", plus5, now);
    assert missing.error == Some(NotFound);
    ghost var before := s.users;
    var reinvested := s.ReinvestUsers([u.id], now);
    var renewed := s.RenewUsers([u.id], now);
    ReinvestThenRenewRestoresBalances(before, [u.id], now, now);
    assert s.users[0].balance == Val(1100.0);
  }
}
