/** The database as the endpoints see it: the two tables, the session's
    staged copy of `transactions`, and the id sequences; with the two
    endpoints that change it, registration and upload. */
module Backend {
  import opened Schema
  import opened Reconcile
  import opened Accounts
  import opened Retrieval

  class Store {
    var users: map<UserId, User>
    /** `transactions` as committed. */
    var committed: map<RowId, Row>
    /** `transactions` as the session sees it: committed rows plus the
        changes staged (flushed or pending) since the last commit. */
    var staged: map<RowId, Row>
    /** The next values of the two id sequences; a rollback does not give ids back. */
    var nextUserId: nat
    var nextRowId: nat

    /** Between requests nothing is staged and both tables keep their invariants. */
    ghost predicate Valid()
      reads this
    {
      && staged == committed
      && UsersInvariant(users, nextUserId)
      && RowsInvariant(users, committed, nextRowId)
    }

    /** An empty database; both sequences start at 1. */
    constructor ()
      ensures Valid()
      ensures users == map[] && committed == map[] && nextUserId == 1 && nextRowId == 1
    {
      users := map[];
      committed := map[];
      staged := map[];
      nextUserId := 1;
      nextRowId := 1;
    }

    /** `db.session.rollback()`: every staged change is dropped. */
    method Rollback()
      modifies this`staged
      ensures staged == committed
    {
      staged := committed;
    }

    /** `db.session.commit()`, once the flush has accepted the staged rows. */
    method Commit()
      requires Admissible(staged)
      modifies this`committed
      ensures committed == staged
    {
      committed := staged;
    }

    /** The registration endpoint; `passwordHash` is the salted hash of `password`. */
    method Register(username: Option<string>, password: Option<string>, passwordHash: string)
      returns (reply: RegisterReply)
      requires Valid()
      modifies this
      ensures Valid()
      ensures committed == old(committed) && nextRowId == old(nextRowId)
      ensures var out := RegisterSpec(old(users), old(nextUserId), username, password, passwordHash);
              reply == out.reply && users == out.users && nextUserId == out.nextUserId
    {
      RegisterKeepsUsers(users, nextUserId, username, password, passwordHash);
      if !Given(username) || !Given(password) {
        return RegisterReply(BadRequest400, None);
      }
      if UserNamed(users, username.value).Some? {
        return RegisterReply(BadRequest400, None);
      }
      var user := User(username.value, passwordHash);
      var id := nextUserId;
      nextUserId := nextUserId + 1;
      if UserFits(user) {
        users := users[id := user];
        reply := RegisterReply(Created201, Some(id));
      } else {
        reply := RegisterReply(ServerError500, None);
      }
    }

    /** The upload endpoint for the authenticated user `caller`; `transactions`
        is the value of the body's `transactions` key (None when the body is
        empty or lacks the key); `now` stands for the clock. */
    method Upload(caller: UserId, transactions: Option<Batch>, now: Time) returns (reply: UploadReply)
      requires Valid()
      modifies this
      ensures Valid()
      ensures users == old(users) && nextUserId == old(nextUserId)
      ensures var out := UploadSpec(old(users), old(committed), old(nextRowId), caller, transactions, now);
              reply == out.reply && committed == out.rows && nextRowId == out.nextId
    {
      UploadKeepsStore(users, committed, nextRowId, caller, transactions, now);
      if caller !in users {
        return UploadReply(NotFound404, None);
      }
      if transactions.None? {
        return UploadReply(BadRequest400, None);
      }
      if transactions.value.NotIterable? {
        Rollback();
        return UploadReply(ServerError500, None);
      }
      var records := transactions.value.records;
      ghost var start := LoopState(committed, nextRowId, 0);
      var uploadedCount := 0;
      for i := 0 to |records|
        invariant committed == old(committed) && users == old(users) && nextUserId == old(nextUserId)
        invariant LoopState(staged, nextRowId, uploadedCount) == Run(committed, caller, now, start, records[..i])
      {
        assert records[..i + 1][..i] == records[..i];
        var rec := records[i];
        if rec.Malformed? {
          Rollback();
        } else if !Admissible(staged) {
          // the autoflush before the lookup raises
          Rollback();
        } else {
          var serverId := Get(rec.serverId, Null);
          var existing := Find(staged, serverId, caller);
          if existing.Some? {
            var k := existing.value;
            staged := staged[k := Patch(staged[k], rec, now)];
          } else {
            staged := staged[nextRowId := NewRow(caller, serverId, rec, now)];
            nextRowId := nextRowId + 1;
          }
          uploadedCount := uploadedCount + 1;
        }
      }
      assert records[..|records|] == records;
      if Admissible(staged) {
        Commit();
        reply := UploadReply(Ok200, Some(uploadedCount));
      } else {
        Rollback();
        reply := UploadReply(ServerError500, None);
      }
    }
  }

  // ---------------------------------------------------------------------
  // What the download endpoint sees after an upload

  /** An upload by one user leaves another user's download exactly as it was. */
  lemma UploadLeavesOthersDownload(users: map<UserId, User>, committed: map<RowId, Row>, nextId: nat,
                                   caller: UserId, other: UserId, transactions: Option<Batch>, now: Time)
    requires RowsInvariant(users, committed, nextId)
    requires other != caller
    ensures var out := UploadSpec(users, committed, nextId, caller, transactions, now);
            Download(users, out.rows, other) == Download(users, committed, other)
  {
    var out := UploadSpec(users, committed, nextId, caller, transactions, now);
    UploadKeepsStore(users, committed, nextId, caller, transactions, now);
    assert OwnedKeys(out.rows, other) == OwnedKeys(committed, other);
    assert Snapshots(out.rows, OwnedKeys(out.rows, other)) == Snapshots(committed, OwnedKeys(committed, other));
  }

  /** A clean batch of distinct server ids that no row holds yet adds one
      entry per record to the caller's download. */
  lemma FreshBatchGrowsDownload(users: map<UserId, User>, committed: map<RowId, Row>, nextId: nat,
                                caller: UserId, recs: seq<Record>, now: Time)
    requires RowsInvariant(users, committed, nextId) && caller in users
    requires AllClean(recs) && DistinctSids(recs) && Sids(recs) !! ServerIds(committed)
    ensures var out := UploadSpec(users, committed, nextId, caller, Some(Items(recs)), now);
            |Download(users, out.rows, caller).transactions.value|
              == |Download(users, committed, caller).transactions.value| + |recs|
  {
    var out := UploadSpec(users, committed, nextId, caller, Some(Items(recs)), now);
    FreshBatchAddsAll(users, committed, nextId, caller, recs, now);
    UploadKeepsStore(users, committed, nextId, caller, Some(Items(recs)), now);
    DownloadCount(users, committed, caller);
    DownloadCount(users, out.rows, caller);
    OwnedGrows(committed, out.rows, caller);
  }

  /** When rows are only added, all of them owned by `caller`, and no owner
      changes, the caller's rows grow by the number added. */
  lemma OwnedGrows(before: map<RowId, Row>, after: map<RowId, Row>, caller: UserId)
    requires before.Keys <= after.Keys
    requires forall k :: k in before ==> after[k].userId == before[k].userId
    requires forall k :: k in after && k !in before ==> after[k].userId == caller
    ensures |OwnedKeys(after, caller)| == |OwnedKeys(before, caller)| + (|after| - |before|)
  {
    var added := after.Keys - before.Keys;
    assert after.Keys == before.Keys + added;
    assert |added| == |after| - |before|;
    assert OwnedKeys(after, caller) == OwnedKeys(before, caller) + added;
    assert OwnedKeys(before, caller) !! added;
  }

  // ---------------------------------------------------------------------
  // A session from registration to download

  /** Register "alice", log in, upload one record with server id 100 and
      12.50, upload server id 100 again with 15.00: both uploads count one
      record, and the download holds one entry, with 15.00. `hash` is the
      hash registration stores for "p1"; `check` accepts it. */
  lemma RegisterUploadDownloadScenario(hash: string, check: (string, string) -> bool, now1: Time, now2: Time)
    requires |hash| <= PASSWORD_HASH_MAX && check(hash, "p1")
    ensures var reg := RegisterSpec(map[], 1, Some("alice"), Some("p1"), hash);
            && reg.reply == RegisterReply(Created201, Some(1))
            && Login(reg.users, Some("alice"), Some("p1"), check) == LoginReply(Ok200, Some(1))
            && var first := UploadSpec(reg.users, map[], 1, 1, Some(Items([Entry(100, 1250)])), now1);
               && first.reply == UploadReply(Ok200, Some(1))
               && var second := UploadSpec(reg.users, first.rows, first.nextId, 1, Some(Items([Entry(100, 1500)])), now2);
                  && second.reply == UploadReply(Ok200, Some(1))
                  && var down := Download(reg.users, second.rows, 1);
                     && down.status == Ok200
                     && |down.transactions.value| == 1
                     && forall s :: s in down.transactions.value ==> s.serverId == Val(100) && s.amount == Val(1500)
  {
    var users := ScenarioRegister(hash, check);
    var row1 := ScenarioFirstUpload(users, now1);
    var row2 := ScenarioSecondUpload(users, row1, now2);
    assert OwnedKeys(map[1 := row2], 1) == {1};
    DownloadCount(users, map[1 := row2], 1);
  }

  /** Registration of "alice" into an empty table, and her login. */
  lemma ScenarioRegister(hash: string, check: (string, string) -> bool) returns (users: map<UserId, User>)
    requires |hash| <= PASSWORD_HASH_MAX && check(hash, "p1")
    ensures users == map[1 := User("alice", hash)]
    ensures var reg := RegisterSpec(map[], 1, Some("alice"), Some("p1"), hash);
            reg.reply == RegisterReply(Created201, Some(1)) && reg.users == users
    ensures Login(users, Some("alice"), Some("p1"), check) == LoginReply(Ok200, Some(1))
  {
    users := map[1 := User("alice", hash)];
    assert "alice" !in Usernames(map[]);
    assert users[1].username == "alice";
    assert "alice" in Usernames(users);
    assert UserNamed(users, "alice") == Some(1);
  }

  /** The first upload inserts the record as row 1. */
  lemma ScenarioFirstUpload(users: map<UserId, User>, now: Time) returns (row: Row)
    requires 1 in users
    ensures row.userId == 1 && row.serverId == Val(100) && row.amount == Val(1250)
    ensures UploadSpec(users, map[], 1, 1, Some(Items([Entry(100, 1250)])), now)
         == UploadOutcome(UploadReply(Ok200, Some(1)), map[1 := row], 2)
  {
    row := NewRow(1, Val(100), Entry(100, 1250), now);
    assert [Entry(100, 1250)][..0] == [];
    assert Run(map[], 1, now, LoopState(map[], 1, 0), [Entry(100, 1250)]) == LoopState(map[1 := row], 2, 1);
    assert RowFits(row);
  }

  /** The second upload finds row 1 by its server id and patches the amount. */
  lemma ScenarioSecondUpload(users: map<UserId, User>, row1: Row, now: Time) returns (row: Row)
    requires 1 in users
    requires row1.userId == 1 && row1.serverId == Val(100) && row1.amount == Val(1250)
    requires RowFits(row1)
    ensures row.userId == 1 && row.serverId == Val(100) && row.amount == Val(1500)
    ensures UploadSpec(users, map[1 := row1], 2, 1, Some(Items([Entry(100, 1500)])), now)
         == UploadOutcome(UploadReply(Ok200, Some(1)), map[1 := row], 2)
  {
    row := Patch(row1, Entry(100, 1500), now);
    assert Owned(map[1 := row1][1], Val(100), 1);
    assert Find(map[1 := row1], Val(100), 1) == Some(1);
    assert [Entry(100, 1500)][..0] == [];
    assert Run(map[1 := row1], 1, now, LoopState(map[1 := row1], 2, 0), [Entry(100, 1500)])
        == LoopState(map[1 := row], 2, 1);
    assert RowFits(row);
  }

  /** The record of the scenario: type 0, category 3, date "2024-01-01", no description. */
  function Entry(serverId: int, cents: int): Record {
    Fields(Some(Val(serverId)), Some(Val(cents)), Some(Val(0)), Some(Val(3)), Some(Val("2024-01-01")), None)
  }

  // ---------------------------------------------------------------------
  // A re-upload that is not idempotent

  /** A record without `amount`, otherwise like `Entry`. */
  function NoAmount(serverId: int): Record {
    Fields(Some(Val(serverId)), None, Some(Val(0)), Some(Val(3)), Some(Val("2024-01-01")), None)
  }

  /** The batch [server id 6 without amount, server id 10, server id 6]. */
  function PartialBatch(): seq<Record> {
    [NoAmount(6), Entry(10, 700), Entry(6, 1250)]
  }

  /** Uploading `PartialBatch` twice into an empty table gives different
      replies and tables. The first time, the record without `amount` is
      inserted with a NULL amount, the autoflush before the next lookup
      fails and rolls it back with nothing else, and only the last record
      is stored: 200 with a count of 2, one row. The second time, that
      record patches the stored row of server id 6 and keeps its amount, so
      every record goes through: 200 with a count of 3, two rows. */
  lemma PartialReuploadDiffers(users: map<UserId, User>, now1: Time, now2: Time)
    requires 1 in users
    ensures var first := UploadSpec(users, map[], 1, 1, Some(Items(PartialBatch())), now1);
            var second := UploadSpec(users, first.rows, first.nextId, 1, Some(Items(PartialBatch())), now2);
            && first.reply == UploadReply(Ok200, Some(2)) && |first.rows| == 1
            && second.reply == UploadReply(Ok200, Some(3)) && |second.rows| == 2
  {
    var row := PartialFirstUpload(users, now1);
    PartialSecondUpload(users, row, now2);
  }

  lemma PartialBatchPrefixes()
    ensures PartialBatch()[..2] == [NoAmount(6), Entry(10, 700)]
    ensures PartialBatch()[..2][..1] == [NoAmount(6)]
    ensures PartialBatch()[..2][..1][..0] == []
  {
  }

  lemma PartialFirstUpload(users: map<UserId, User>, now: Time) returns (row: Row)
    requires 1 in users
    ensures row.userId == 1 && row.serverId == Val(6) && row.amount == Val(1250) && RowFits(row)
    ensures UploadSpec(users, map[], 1, 1, Some(Items(PartialBatch())), now)
         == UploadOutcome(UploadReply(Ok200, Some(2)), map[2 := row], 3)
  {
    var c := map[];
    PartialBatchPrefixes();
    var bad := NewRow(1, Val(6), NoAmount(6), now);
    var s1 := Run(c, 1, now, LoopState(c, 1, 0), [NoAmount(6)]);
    assert s1 == LoopState(map[1 := bad], 2, 1);
    assert !RowFits(bad);
    var s2 := Run(c, 1, now, LoopState(c, 1, 0), PartialBatch()[..2]);
    assert s2 == Step(c, 1, now, s1, Entry(10, 700));
    assert 1 in s1.staged && !RowFits(s1.staged[1]);
    assert !Passes(s1.staged, Entry(10, 700));
    assert s2 == LoopState(c, 2, 1);
    row := NewRow(1, Val(6), Entry(6, 1250), now);
    assert Run(c, 1, now, LoopState(c, 1, 0), PartialBatch()) == Step(c, 1, now, s2, Entry(6, 1250));
    assert Step(c, 1, now, s2, Entry(6, 1250)) == LoopState(map[2 := row], 3, 2);
    assert RowFits(row);
  }

  lemma PartialSecondUpload(users: map<UserId, User>, row: Row, now: Time)
    requires 1 in users
    requires row.userId == 1 && row.serverId == Val(6) && row.amount == Val(1250) && RowFits(row)
    ensures var out := UploadSpec(users, map[2 := row], 3, 1, Some(Items(PartialBatch())), now);
            out.reply == UploadReply(Ok200, Some(3)) && |out.rows| == 2
  {
    var c := map[2 := row];
    PartialBatchPrefixes();
    var patched := Patch(row, NoAmount(6), now);
    assert Owned(c[2], Val(6), 1);
    assert Find(c, Val(6), 1) == Some(2);
    var s1 := Run(c, 1, now, LoopState(c, 3, 0), [NoAmount(6)]);
    assert s1 == LoopState(map[2 := patched], 3, 1);
    assert RowFits(patched);
    var added := NewRow(1, Val(10), Entry(10, 700), now);
    var s2 := Run(c, 1, now, LoopState(c, 3, 0), PartialBatch()[..2]);
    assert s2 == Step(c, 1, now, s1, Entry(10, 700));
    assert Find(s1.staged, Val(10), 1).None?;
    assert s2 == LoopState(map[2 := patched, 3 := added], 4, 2);
    assert RowFits(added);
    var last := Patch(patched, Entry(6, 1250), now);
    assert Owned(s2.staged[2], Val(6), 1);
    assert Find(s2.staged, Val(6), 1) == Some(2);
    var s3 := Run(c, 1, now, LoopState(c, 3, 0), PartialBatch());
    assert s3 == Step(c, 1, now, s2, Entry(6, 1250));
    assert s3 == LoopState(map[2 := last, 3 := added], 4, 3);
    assert RowFits(last);
    assert s3.staged.Keys == {2, 3};
  }
}
