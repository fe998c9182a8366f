/** The upload reconciler: one pass over the uploaded list, merging each
    record into the staged copy of `transactions`, then one commit. */
module Reconcile {
  import opened Schema

  /** One element of the uploaded list. `Malformed` is an element on which
      `.get` raises (it is not a JSON object). For each key of an object,
      `None` means the key is absent and `Some(Null)` that it is present
      with null. */
  datatype Record =
    | Malformed
    | Fields(
        serverId: Option<Cell<int>>,
        amount: Option<Cell<int>>,
        kind: Option<Cell<int>>,
        categoryId: Option<Cell<int>>,
        date: Option<Cell<string>>,
        description: Option<Cell<string>>)

  /** The value of the `transactions` key: a list of records, or a value
      a `for` loop cannot iterate over (a number, a boolean, null). */
  datatype Batch = Items(records: seq<Record>) | NotIterable

  datatype UploadReply = UploadReply(status: Status, uploadedCount: Option<nat>)

  /** The reply together with the committed rows and the id sequence after the request. */
  datatype UploadOutcome = UploadOutcome(reply: UploadReply, rows: map<RowId, Row>, nextId: nat)

  /** The state the loop carries: the staged rows (what the session would
      commit), the next row id the sequence hands out, and `uploaded_count`. */
  datatype LoopState = LoopState(staged: map<RowId, Row>, nextId: nat, count: nat)

  /** `record.get(key, default)`: the default is used only when the key is absent. */
  function Get<T>(field: Option<Cell<T>>, default: Cell<T>): Cell<T> {
    match field
    case None => default
    case Some(c) => c
  }

  predicate Owned(r: Row, serverId: Cell<int>, caller: UserId) {
    r.serverId == serverId && r.userId == caller
  }

  /** The query `filter_by(server_id=..., user_id=caller).first()`. */
  function Find(rows: map<RowId, Row>, serverId: Cell<int>, caller: UserId): (found: Option<RowId>)
    requires UniqueServerIds(rows)
    ensures found.Some? ==> found.value in rows && Owned(rows[found.value], serverId, caller)
    ensures found.None? ==> forall k :: k in rows ==> !Owned(rows[k], serverId, caller)
  {
    if exists k :: k in rows && Owned(rows[k], serverId, caller) then
      var k :| k in rows && Owned(rows[k], serverId, caller);
      Some(k)
    else
      None
  }

  /** The in-place update of an existing row. */
  function Patch(r: Row, rec: Record, now: Time): (p: Row)
    requires rec.Fields?
    ensures rec.amount.None? ==> p.amount == r.amount
    ensures rec.amount.Some? ==> p.amount == rec.amount.value
    ensures rec.kind.None? ==> p.kind == r.kind
    ensures rec.kind.Some? ==> p.kind == rec.kind.value
    ensures rec.categoryId.None? ==> p.categoryId == r.categoryId
    ensures rec.categoryId.Some? ==> p.categoryId == rec.categoryId.value
    ensures rec.date.None? ==> p.date == r.date
    ensures rec.date.Some? ==> p.date == rec.date.value
    ensures rec.description.None? ==> p.description == r.description
    ensures rec.description.Some? ==> p.description == rec.description.value
    ensures SameIdentity(p, r) && p.updatedAt == now
  {
    r.(amount := Get(rec.amount, r.amount),
       kind := Get(rec.kind, r.kind),
       categoryId := Get(rec.categoryId, r.categoryId),
       date := Get(rec.date, r.date),
       description := Get(rec.description, r.description),
       updatedAt := now)
  }

  /** A new row owned by the caller; an absent key gives NULL. */
  function NewRow(caller: UserId, serverId: Cell<int>, rec: Record, now: Time): (r: Row)
    requires rec.Fields?
    ensures r.userId == caller && r.serverId == serverId
    ensures r.createdAt == now && r.updatedAt == now
    ensures rec.amount.None? ==> r.amount.Null?
    ensures rec.amount.Some? ==> r.amount == rec.amount.value
    ensures rec.kind.None? ==> r.kind.Null?
    ensures rec.kind.Some? ==> r.kind == rec.kind.value
    ensures rec.categoryId.None? ==> r.categoryId.Null?
    ensures rec.categoryId.Some? ==> r.categoryId == rec.categoryId.value
    ensures rec.date.None? ==> r.date.Null?
    ensures rec.date.Some? ==> r.date == rec.date.value
    ensures rec.description.None? ==> r.description.Null?
    ensures rec.description.Some? ==> r.description == rec.description.value
  {
    Row(caller, serverId,
        Get(rec.amount, Null), Get(rec.kind, Null), Get(rec.categoryId, Null),
        Get(rec.date, Null), Get(rec.description, Null),
        now, now)
  }

  /** The columns an upload never changes on an existing row: `user_id`,
      `server_id` and `created_at` (`id` is the key of the row). */
  predicate SameIdentity(a: Row, b: Row) {
    a.userId == b.userId && a.serverId == b.serverId && a.createdAt == b.createdAt
  }

  /** Whether a record gets through the loop body without raising: `.get`
      works on it, and the autoflush the query triggers accepts the rows
      staged so far. */
  predicate Passes(staged: map<RowId, Row>, rec: Record) {
    rec.Fields? && Admissible(staged)
  }

  /** One iteration of the loop. A raise inside the body rolls the whole
      session back to `committed` and leaves the count as it was. */
  function Step(committed: map<RowId, Row>, caller: UserId, now: Time, s: LoopState, rec: Record): (r: LoopState)
    ensures Passes(s.staged, rec) ==> r.count == s.count + 1
    ensures !Passes(s.staged, rec) ==> r == s.(staged := committed)
    ensures s.nextId <= r.nextId <= s.nextId + 1
  {
    if !Passes(s.staged, rec) then
      s.(staged := committed)
    else
      var serverId := Get(rec.serverId, Null);
      match Find(s.staged, serverId, caller)
      case Some(k) =>
        LoopState(s.staged[k := Patch(s.staged[k], rec, now)], s.nextId, s.count + 1)
      case None =>
        LoopState(s.staged[s.nextId := NewRow(caller, serverId, rec, now)], s.nextId + 1, s.count + 1)
  }

  /** The loop over the whole list, in order. */
  function Run(committed: map<RowId, Row>, caller: UserId, now: Time, start: LoopState, recs: seq<Record>): (r: LoopState)
    ensures start.count <= r.count <= start.count + |recs|
    ensures start.nextId <= r.nextId <= start.nextId + |recs|
    decreases |recs|
  {
    if recs == [] then start
    else Step(committed, caller, now, Run(committed, caller, now, start, recs[..|recs| - 1]), recs[|recs| - 1])
  }

  /** The whole request: the user check, the `transactions` check, the loop
      and the final commit. */
  function UploadSpec(users: map<UserId, User>, committed: map<RowId, Row>, nextId: nat,
                      caller: UserId, transactions: Option<Batch>, now: Time): (out: UploadOutcome)
    ensures out.reply.status == NotFound404 <==> caller !in users
    ensures out.reply.status == BadRequest400 <==> caller in users && transactions.None?
    ensures out.reply.status in {Ok200, NotFound404, BadRequest400, ServerError500}
    ensures out.reply.uploadedCount.Some? <==> out.reply.status == Ok200
    ensures out.reply.status != Ok200 ==> out.rows == committed
    ensures out.reply.status == Ok200 ==>
              && Admissible(out.rows)
              && transactions.Some? && transactions.value.Items?
              && out.reply.uploadedCount.value <= |transactions.value.records|
    ensures out.nextId >= nextId
    ensures caller in users && transactions.Some? && transactions.value.Items? ==>
              var r := Run(committed, caller, now, LoopState(committed, nextId, 0), transactions.value.records);
              && (out.reply.status == Ok200 <==> Admissible(r.staged))
              && (out.reply.status == Ok200 ==> out.rows == r.staged && out.reply.uploadedCount == Some(r.count))
              && out.nextId == r.nextId
  {
    if caller !in users then
      UploadOutcome(UploadReply(NotFound404, None), committed, nextId)
    else if transactions.None? then
      UploadOutcome(UploadReply(BadRequest400, None), committed, nextId)
    else if transactions.value.NotIterable? then
      UploadOutcome(UploadReply(ServerError500, None), committed, nextId)
    else
      var recs := transactions.value.records;
      var r := Run(committed, caller, now, LoopState(committed, nextId, 0), recs);
      if Admissible(r.staged) then
        UploadOutcome(UploadReply(Ok200, Some(r.count)), r.staged, r.nextId)
      else
        UploadOutcome(UploadReply(ServerError500, None), committed, r.nextId)
  }

  // ---------------------------------------------------------------------
  // The count

  function WellFormedCount(recs: seq<Record>): nat
    decreases |recs|
  {
    if recs == [] then 0
    else WellFormedCount(recs[..|recs| - 1]) + (if recs[|recs| - 1].Fields? then 1 else 0)
  }

  /** `uploaded_count` grows by at most one per well-formed record, so never
      past the length of the list; the sequence of row ids never goes back. */
  lemma {:induction false} RunCount(committed: map<RowId, Row>, caller: UserId, now: Time, start: LoopState, recs: seq<Record>)
    ensures Run(committed, caller, now, start, recs).count <= start.count + WellFormedCount(recs)
    decreases |recs|
  {
    if recs != [] {
      RunCount(committed, caller, now, start, recs[..|recs| - 1]);
    }
  }

  // ---------------------------------------------------------------------
  // The upsert key

  /** A record that passes and names a server id the caller already holds
      patches that row in place and adds no row. */
  lemma StepPatches(committed: map<RowId, Row>, caller: UserId, now: Time, s: LoopState, rec: Record, k: RowId)
    requires Passes(s.staged, rec)
    requires k in s.staged && Owned(s.staged[k], Get(rec.serverId, Null), caller)
    ensures var t := Step(committed, caller, now, s, rec);
            && t.staged == s.staged[k := Patch(s.staged[k], rec, now)]
            && t.staged.Keys == s.staged.Keys
            && t.nextId == s.nextId
  {
    var found := Find(s.staged, Get(rec.serverId, Null), caller);
    assert found.Some?;
    assert found.value == k;
  }

  /** A record that passes and names a server id the caller does not hold
      stages exactly one new row under a fresh id, owned by the caller and
      holding that server id; every other row stays as it was. */
  lemma StepInserts(committed: map<RowId, Row>, caller: UserId, now: Time, s: LoopState, rec: Record)
    requires Passes(s.staged, rec)
    requires forall k :: k in s.staged ==> k < s.nextId
    requires forall k :: k in s.staged ==> !Owned(s.staged[k], Get(rec.serverId, Null), caller)
    ensures var t := Step(committed, caller, now, s, rec);
            && t.staged.Keys == s.staged.Keys + {s.nextId}
            && |t.staged| == |s.staged| + 1
            && t.staged[s.nextId] == NewRow(caller, Get(rec.serverId, Null), rec, now)
            && t.staged[s.nextId].userId == caller
            && t.staged[s.nextId].serverId == Get(rec.serverId, Null)
            && (forall k :: k in s.staged ==> t.staged[k] == s.staged[k])
            && t.nextId == s.nextId + 1
  {
    assert s.nextId !in s.staged;
  }

  /** A record that is inserted without one of the NOT NULL keys stages a
      row holding NULL in that column, so the next autoflush, or the commit,
      rejects the staged rows. */
  lemma MissingKeyBlocksFlush(committed: map<RowId, Row>, caller: UserId, now: Time, s: LoopState, rec: Record)
    requires Passes(s.staged, rec)
    requires forall k :: k in s.staged ==> k < s.nextId
    requires forall k :: k in s.staged ==> !Owned(s.staged[k], Get(rec.serverId, Null), caller)
    requires rec.serverId.None? || rec.amount.None? || rec.kind.None? || rec.categoryId.None? || rec.date.None?
    ensures !Admissible(Step(committed, caller, now, s, rec).staged)
  {
    StepInserts(committed, caller, now, s, rec);
    assert !RowFits(Step(committed, caller, now, s, rec).staged[s.nextId]);
  }

  // ---------------------------------------------------------------------
  // What every loop state keeps

  /** A loop state reached from `committed`: ids come from the sequence,
      no committed row is gone or has a new owner, server id or creation
      time, every new row is the caller's, and every row of another user
      is exactly as committed. */
  ghost predicate Tracks(committed: map<RowId, Row>, caller: UserId, s: LoopState) {
    && (forall k :: k in committed ==> k < s.nextId)
    && (forall k :: k in s.staged ==> k < s.nextId)
    && (forall k :: k in committed ==> k in s.staged && SameIdentity(s.staged[k], committed[k]))
    && (forall k :: k in s.staged && k !in committed ==> s.staged[k].userId == caller)
    && (forall k :: k in s.staged && s.staged[k].userId != caller ==> k in committed && s.staged[k] == committed[k])
  }

  lemma StepTracks(committed: map<RowId, Row>, caller: UserId, now: Time, s: LoopState, rec: Record)
    requires Tracks(committed, caller, s)
    ensures Tracks(committed, caller, Step(committed, caller, now, s, rec))
  {
    if Passes(s.staged, rec) {
      var serverId := Get(rec.serverId, Null);
      var t := Step(committed, caller, now, s, rec);
      match Find(s.staged, serverId, caller)
      case Some(k) =>
        assert t.staged == s.staged[k := Patch(s.staged[k], rec, now)];
      case None =>
        assert t.staged == s.staged[s.nextId := NewRow(caller, serverId, rec, now)];
        assert s.nextId !in committed;
    }
  }

  /** Whatever the records, the loop keeps `Tracks`. */
  lemma {:induction false} RunTracks(committed: map<RowId, Row>, caller: UserId, now: Time, start: LoopState, recs: seq<Record>)
    requires Tracks(committed, caller, start)
    ensures Tracks(committed, caller, Run(committed, caller, now, start, recs))
    decreases |recs|
  {
    if recs != [] {
      var prefix := recs[..|recs| - 1];
      RunTracks(committed, caller, now, start, prefix);
      StepTracks(committed, caller, now, Run(committed, caller, now, start, prefix), recs[|recs| - 1]);
    }
  }

  // ---------------------------------------------------------------------
  // Batches every record of which the schema accepts

  /** A record whose NOT NULL keys are all present, with values the schema
      accepts; `description` may be absent, null or a string. */
  predicate Clean(rec: Record) {
    && rec.Fields?
    && rec.serverId.Some? && IntColumn(rec.serverId.value)
    && rec.amount.Some? && rec.amount.value.Val?
    && -AMOUNT_LIMIT_CENTS < rec.amount.value.value < AMOUNT_LIMIT_CENTS
    && rec.kind.Some? && IntColumn(rec.kind.value)
    && rec.categoryId.Some? && IntColumn(rec.categoryId.value)
    && rec.date.Some? && rec.date.value.Val? && |rec.date.value.value| <= DATE_MAX
  }

  predicate AllClean(recs: seq<Record>) {
    forall i :: 0 <= i < |recs| ==> Clean(recs[i])
  }

  function SidOf(rec: Record): int
    requires Clean(rec)
  {
    rec.serverId.value.value
  }

  /** The server ids a clean batch names. */
  function Sids(recs: seq<Record>): set<int>
    requires AllClean(recs)
  {
    set i | 0 <= i < |recs| :: SidOf(recs[i])
  }

  /** The server ids held by rows of users other than `caller`. */
  function ForeignServerIds(rows: map<RowId, Row>, caller: UserId): set<int> {
    set k | k in rows && rows[k].userId != caller && rows[k].serverId.Val? :: rows[k].serverId.value
  }

  /** The NOT NULL columns an upload writes; `description` is followed
      apart, by `DescriptionAfter`, since a clean record may leave it out. */
  datatype Content = Content(amount: Cell<int>, kind: Cell<int>, categoryId: Cell<int>, date: Cell<string>)

  function ContentOf(r: Row): Content {
    Content(r.amount, r.kind, r.categoryId, r.date)
  }

  function RecordContent(rec: Record): Content
    requires Clean(rec)
  {
    Content(rec.amount.value, rec.kind.value, rec.categoryId.value, rec.date.value)
  }

  /** The `description` of the row holding `sid` after the batch, when it
      held `d` before: each record naming `sid` applies
      `get('description', current)`, in order. */
  function DescriptionAfter(recs: seq<Record>, sid: int, d: Cell<string>): Cell<string>
    requires AllClean(recs)
    decreases |recs|
  {
    if recs == [] then d
    else
      var prefix := recs[..|recs| - 1];
      assert forall i :: 0 <= i < |prefix| ==> prefix[i] == recs[i];
      var before := DescriptionAfter(prefix, sid, d);
      var last := recs[|recs| - 1];
      if SidOf(last) == sid then Get(last.description, before) else before
  }

  /** Some record naming `sid` carries the `description` key. */
  predicate SetsDescription(recs: seq<Record>, sid: int)
    requires AllClean(recs)
    decreases |recs|
  {
    if recs == [] then false
    else
      var prefix := recs[..|recs| - 1];
      assert forall i :: 0 <= i < |prefix| ==> prefix[i] == recs[i];
      var last := recs[|recs| - 1];
      SetsDescription(prefix, sid) || (SidOf(last) == sid && last.description.Some?)
  }

  /** The batch either sets the description, whatever it was before, or
      leaves it as it was; it leaves it alone when it never names `sid`. */
  lemma {:induction false} DescriptionAfterCases(recs: seq<Record>, sid: int, d: Cell<string>)
    requires AllClean(recs)
    ensures DescriptionAfter(recs, sid, d) == if SetsDescription(recs, sid) then DescriptionAfter(recs, sid, Null) else d
    ensures sid !in Sids(recs) ==> !SetsDescription(recs, sid)
    decreases |recs|
  {
    if recs != [] {
      SidsOfPrefix(recs);
      DescriptionAfterCases(recs[..|recs| - 1], sid, d);
      DescriptionAfterCases(recs[..|recs| - 1], sid, Null);
    }
  }

  /** Applying a batch's descriptions twice is applying them once. */
  lemma {:induction false} DescriptionAfterTwice(recs: seq<Record>, sid: int, d: Cell<string>)
    requires AllClean(recs)
    ensures DescriptionAfter(recs, sid, DescriptionAfter(recs, sid, d)) == DescriptionAfter(recs, sid, d)
  {
    DescriptionAfterCases(recs, sid, d);
    DescriptionAfterCases(recs, sid, DescriptionAfter(recs, sid, d));
  }

  /** The description a row held before the batch: NULL for a row the batch inserts. */
  function DescriptionBefore(committed: map<RowId, Row>, k: RowId): Cell<string> {
    if k in committed then committed[k].description else Null
  }

  /** The content of the last record of the batch that names `sid`. */
  function LastContent(recs: seq<Record>, sid: int): Content
    requires AllClean(recs) && sid in Sids(recs)
    decreases |recs|
  {
    var last := recs[|recs| - 1];
    if SidOf(last) == sid then RecordContent(last)
    else
      var prefix := recs[..|recs| - 1];
      assert forall i :: 0 <= i < |prefix| ==> prefix[i] == recs[i];
      assert sid in Sids(prefix) by {
        var i :| 0 <= i < |recs| && SidOf(recs[i]) == sid;
        assert i < |prefix|;
      }
      LastContent(prefix, sid)
  }

  /** Every server id the batch names is held by some row. */
  ghost predicate Covers(recs: seq<Record>, staged: map<RowId, Row>)
    requires AllClean(recs)
  {
    Sids(recs) <= ServerIds(staged)
  }

  /** Every row holding a server id the batch names is the caller's,
      carries the content of the last record naming it and the description
      the batch leaves, and was updated now. */
  ghost predicate Carries(committed: map<RowId, Row>, caller: UserId, now: Time, recs: seq<Record>, staged: map<RowId, Row>)
    requires AllClean(recs)
  {
    forall k, sid :: k in staged && sid in Sids(recs) && staged[k].serverId == Val(sid) ==>
      && staged[k].userId == caller
      && ContentOf(staged[k]) == LastContent(recs, sid)
      && staged[k].description == DescriptionAfter(recs, sid, DescriptionBefore(committed, k))
      && staged[k].updatedAt == now
  }

  /** Every row holding no server id the batch names is as committed. */
  ghost predicate Untouched(committed: map<RowId, Row>, recs: seq<Record>, staged: map<RowId, Row>)
    requires AllClean(recs)
  {
    forall k :: k in staged && !Names(recs, staged[k]) ==> k in committed && staged[k] == committed[k]
  }

  predicate Names(recs: seq<Record>, r: Row)
    requires AllClean(recs)
  {
    r.serverId.Val? && r.serverId.value in Sids(recs)
  }

  /** What the staged rows look like after a clean batch: the committed rows
      overwritten by the batch, the last record naming a server id winning. */
  ghost predicate Reflects(committed: map<RowId, Row>, caller: UserId, now: Time, recs: seq<Record>, staged: map<RowId, Row>)
    requires AllClean(recs)
  {
    Covers(recs, staged) && Carries(committed, caller, now, recs, staged) && Untouched(committed, recs, staged)
  }

  lemma LastContentStep(recs: seq<Record>, sid: int)
    requires AllClean(recs) && recs != []
    requires sid in Sids(recs)
    ensures AllClean(recs[..|recs| - 1])
    ensures sid == SidOf(recs[|recs| - 1]) ==> LastContent(recs, sid) == RecordContent(recs[|recs| - 1])
    ensures sid != SidOf(recs[|recs| - 1]) ==>
              sid in Sids(recs[..|recs| - 1]) && LastContent(recs, sid) == LastContent(recs[..|recs| - 1], sid)
  {
    SidsOfPrefix(recs);
  }

  lemma SidsOfPrefix(recs: seq<Record>)
    requires AllClean(recs) && recs != []
    ensures AllClean(recs[..|recs| - 1])
    ensures Sids(recs) == Sids(recs[..|recs| - 1]) + {SidOf(recs[|recs| - 1])}
  {
    var prefix := recs[..|recs| - 1];
    assert forall i :: 0 <= i < |prefix| ==> prefix[i] == recs[i];
    forall sid | sid in Sids(recs) ensures sid in Sids(prefix) + {SidOf(recs[|recs| - 1])} {
      var i :| 0 <= i < |recs| && SidOf(recs[i]) == sid;
      if i < |prefix| { assert SidOf(prefix[i]) == sid; }
    }
    forall sid | sid in Sids(prefix) ensures sid in Sids(recs) {
      var i :| 0 <= i < |prefix| && SidOf(prefix[i]) == sid;
      assert SidOf(recs[i]) == sid;
    }
  }

  /** The last record of a clean batch patches the caller's row holding its server id. */
  lemma PatchReflects(committed: map<RowId, Row>, caller: UserId, now: Time, recs: seq<Record>,
                      staged: map<RowId, Row>, k: RowId)
    requires AllClean(recs) && recs != []
    requires Admissible(staged)
    requires Reflects(committed, caller, now, recs[..|recs| - 1], staged)
    requires k in staged && Owned(staged[k], Val(SidOf(recs[|recs| - 1])), caller)
    ensures var t := staged[k := Patch(staged[k], recs[|recs| - 1], now)];
            Admissible(t) && Reflects(committed, caller, now, recs, t)
  {
    var rec := recs[|recs| - 1];
    var sid := SidOf(rec);
    var t := staged[k := Patch(staged[k], rec, now)];
    SidsOfPrefix(recs);
    assert Admissible(t) by {
      assert RowFits(t[k]);
      forall j | j in staged ensures t[j].serverId == staged[j].serverId { }
    }
    assert Covers(recs, t) by {
      forall j | j in staged ensures t[j].serverId == staged[j].serverId { }
      assert ServerIds(t) == ServerIds(staged);
      assert staged[k].serverId == Val(sid);
    }
    if sid !in Sids(recs[..|recs| - 1]) {
      assert !Names(recs[..|recs| - 1], staged[k]);
    }
    PatchCarries(committed, caller, now, recs, staged, k);
    assert Untouched(committed, recs, t) by {
      forall j | j in t && !Names(recs, t[j]) ensures j in committed && t[j] == committed[j] {
        assert j != k;
        assert !Names(recs[..|recs| - 1], staged[j]);
      }
    }
  }

  lemma PatchCarries(committed: map<RowId, Row>, caller: UserId, now: Time, recs: seq<Record>, staged: map<RowId, Row>, k: RowId)
    requires AllClean(recs) && recs != []
    requires k in staged && Owned(staged[k], Val(SidOf(recs[|recs| - 1])), caller)
    requires SidOf(recs[|recs| - 1]) in Sids(recs[..|recs| - 1]) || DescriptionBefore(committed, k) == staged[k].description
    requires UniqueServerIds(staged[k := Patch(staged[k], recs[|recs| - 1], now)])
    requires Carries(committed, caller, now, recs[..|recs| - 1], staged)
    ensures Carries(committed, caller, now, recs, staged[k := Patch(staged[k], recs[|recs| - 1], now)])
  {
    var rec := recs[|recs| - 1];
    var sid := SidOf(rec);
    var prefix := recs[..|recs| - 1];
    var t := staged[k := Patch(staged[k], rec, now)];
    forall j, x | j in t && x in Sids(recs) && t[j].serverId == Val(x)
      ensures && t[j].userId == caller && ContentOf(t[j]) == LastContent(recs, x)
              && t[j].description == DescriptionAfter(recs, x, DescriptionBefore(committed, j))
              && t[j].updatedAt == now
    {
      LastContentStep(recs, x);
      if x == sid {
        assert t[k].serverId == Val(sid);
        assert j == k;
        assert ContentOf(t[k]) == RecordContent(rec);
        assert staged[k].description == DescriptionAfter(prefix, sid, DescriptionBefore(committed, k)) by {
          if sid !in Sids(prefix) {
            DescriptionAfterCases(prefix, sid, DescriptionBefore(committed, k));
          }
        }
      } else {
        assert j != k;
      }
    }
  }

  /** The last record of a clean batch, whose server id no row holds, is staged as a new row. */
  lemma InsertReflects(committed: map<RowId, Row>, caller: UserId, now: Time, recs: seq<Record>,
                       staged: map<RowId, Row>, n: RowId)
    requires AllClean(recs) && recs != []
    requires Admissible(staged)
    requires Reflects(committed, caller, now, recs[..|recs| - 1], staged)
    requires n !in staged && n !in committed
    requires forall j :: j in staged ==> staged[j].serverId != Val(SidOf(recs[|recs| - 1]))
    ensures var t := staged[n := NewRow(caller, Val(SidOf(recs[|recs| - 1])), recs[|recs| - 1], now)];
            Admissible(t) && Reflects(committed, caller, now, recs, t)
  {
    var rec := recs[|recs| - 1];
    var sid := SidOf(rec);
    var t := staged[n := NewRow(caller, Val(sid), rec, now)];
    SidsOfPrefix(recs);
    assert Admissible(t) by {
      assert RowFits(t[n]);
    }
    assert Covers(recs, t) by {
      assert sid in ServerIds(t) by { assert t[n].serverId == Val(sid); }
      forall x | x in ServerIds(staged) ensures x in ServerIds(t) {
        var j :| j in staged && staged[j].serverId.Val? && staged[j].serverId.value == x;
        assert t[j] == staged[j];
      }
    }
    assert sid !in ServerIds(staged);
    InsertCarries(committed, caller, now, recs, staged, n);
    assert Untouched(committed, recs, t) by {
      forall j | j in t && !Names(recs, t[j]) ensures j in committed && t[j] == committed[j] {
        assert j != n;
        assert !Names(recs[..|recs| - 1], staged[j]);
      }
    }
  }

  lemma InsertCarries(committed: map<RowId, Row>, caller: UserId, now: Time, recs: seq<Record>, staged: map<RowId, Row>, n: RowId)
    requires AllClean(recs) && recs != []
    requires Carries(committed, caller, now, recs[..|recs| - 1], staged)
    requires n !in staged && n !in committed
    requires SidOf(recs[|recs| - 1]) !in Sids(recs[..|recs| - 1])
    requires forall j :: j in staged ==> staged[j].serverId != Val(SidOf(recs[|recs| - 1]))
    ensures Carries(committed, caller, now, recs, staged[n := NewRow(caller, Val(SidOf(recs[|recs| - 1])), recs[|recs| - 1], now)])
  {
    var rec := recs[|recs| - 1];
    var sid := SidOf(rec);
    var t := staged[n := NewRow(caller, Val(sid), rec, now)];
    forall j, x | j in t && x in Sids(recs) && t[j].serverId == Val(x)
      ensures && t[j].userId == caller && ContentOf(t[j]) == LastContent(recs, x)
              && t[j].description == DescriptionAfter(recs, x, DescriptionBefore(committed, j))
              && t[j].updatedAt == now
    {
      LastContentStep(recs, x);
      if x == sid {
        assert j == n;
        assert ContentOf(t[n]) == RecordContent(rec);
        DescriptionAfterCases(recs[..|recs| - 1], sid, Null);
      } else {
        assert j != n;
      }
    }
  }

  /** One clean record whose server id no other user holds: it passes, the
      staged rows stay admissible, and `Reflects` extends to it. */
  lemma StepClean(committed: map<RowId, Row>, caller: UserId, now: Time, recs: seq<Record>, s: LoopState)
    requires AllClean(recs) && recs != []
    requires Sids(recs) !! ForeignServerIds(committed, caller)
    requires Admissible(s.staged) && Tracks(committed, caller, s)
    requires Reflects(committed, caller, now, recs[..|recs| - 1], s.staged)
    ensures var t := Step(committed, caller, now, s, recs[|recs| - 1]);
            Admissible(t.staged) && t.count == s.count + 1 && Reflects(committed, caller, now, recs, t.staged)
  {
    var rec := recs[|recs| - 1];
    var sid := SidOf(rec);
    assert sid in Sids(recs);
    assert Get(rec.serverId, Null) == Val(sid);
    match Find(s.staged, Val(sid), caller)
    case Some(k) =>
      PatchReflects(committed, caller, now, recs, s.staged, k);
    case None =>
      forall j | j in s.staged ensures s.staged[j].serverId != Val(sid) {
        if s.staged[j].userId != caller {
          assert j in committed && committed[j] == s.staged[j];
          if committed[j].serverId.Val? {
            assert committed[j].serverId.value in ForeignServerIds(committed, caller);
          }
        }
      }
      InsertReflects(committed, caller, now, recs, s.staged, s.nextId);
  }

  /** A batch of clean records none of whose server ids another user holds:
      every record passes, the commit will succeed, and the staged rows are
      the committed ones overwritten by the batch, last record winning. */
  lemma {:induction false} RunClean(committed: map<RowId, Row>, caller: UserId, now: Time, nextId: nat, recs: seq<Record>)
    requires Admissible(committed)
    requires forall k :: k in committed ==> k < nextId
    requires AllClean(recs)
    requires Sids(recs) !! ForeignServerIds(committed, caller)
    ensures var r := Run(committed, caller, now, LoopState(committed, nextId, 0), recs);
            && Admissible(r.staged)
            && r.count == |recs|
            && Tracks(committed, caller, r)
            && Reflects(committed, caller, now, recs, r.staged)
    decreases |recs|
  {
    var start := LoopState(committed, nextId, 0);
    if recs == [] {
      assert Sids(recs) == {};
    } else {
      var prefix := recs[..|recs| - 1];
      SidsOfPrefix(recs);
      RunClean(committed, caller, now, nextId, prefix);
      StepClean(committed, caller, now, recs, Run(committed, caller, now, start, prefix));
      StepTracks(committed, caller, now, Run(committed, caller, now, start, prefix), recs[|recs| - 1]);
    }
  }

  // ---------------------------------------------------------------------
  // Whole requests

  /** An upload keeps the store's invariant, deletes no row, never changes
      a row's owner, server id or creation time, and leaves every row of
      another user exactly as it was. */
  lemma UploadKeepsStore(users: map<UserId, User>, committed: map<RowId, Row>, nextId: nat,
                         caller: UserId, transactions: Option<Batch>, now: Time)
    requires RowsInvariant(users, committed, nextId)
    ensures var out := UploadSpec(users, committed, nextId, caller, transactions, now);
            && RowsInvariant(users, out.rows, out.nextId)
            && (forall k :: k in committed ==> k in out.rows && SameIdentity(out.rows[k], committed[k]))
            && (forall k :: k in committed && committed[k].userId != caller ==> out.rows[k] == committed[k])
            && (forall k :: k in out.rows && k !in committed ==> out.rows[k].userId == caller)
  {
    if caller in users && transactions.Some? && transactions.value.Items? {
      RunTracks(committed, caller, now, LoopState(committed, nextId, 0), transactions.value.records);
    }
  }

  /** A clean batch whose server ids no other user holds is committed: the
      reply is 200 counting every record, and the committed table is the old
      one overwritten by the batch, the last record naming a server id
      winning, with each row's description as the batch's `get`s leave it. */
  lemma CleanBatchCommitted(users: map<UserId, User>, committed: map<RowId, Row>, nextId: nat,
                            caller: UserId, recs: seq<Record>, now: Time)
    requires RowsInvariant(users, committed, nextId) && caller in users
    requires AllClean(recs) && Sids(recs) !! ForeignServerIds(committed, caller)
    ensures var out := UploadSpec(users, committed, nextId, caller, Some(Items(recs)), now);
            && out.reply == UploadReply(Ok200, Some(|recs|))
            && Reflects(committed, caller, now, recs, out.rows)
  {
    RunClean(committed, caller, now, nextId, recs);
  }

  /** Every column but `updated_at`. */
  predicate SameButUpdatedAt(a: Row, b: Row) {
    SameIdentity(a, b) && ContentOf(a) == ContentOf(b) && a.description == b.description
  }

  lemma ForeignAreServerIds(rows: map<RowId, Row>, caller: UserId)
    ensures ForeignServerIds(rows, caller) <= ServerIds(rows)
  {
    forall x | x in ForeignServerIds(rows, caller) ensures x in ServerIds(rows) {
      var k :| k in rows && rows[k].userId != caller && rows[k].serverId.Val? && rows[k].serverId.value == x;
    }
  }

  /** Uploading the same clean batch a second time succeeds with the same
      count, adds no row, and leaves every column of every row as the first
      upload left it, except `updated_at`, which the second upload sets on
      every row the batch names. */
  lemma ReuploadIdempotent(users: map<UserId, User>, committed: map<RowId, Row>, nextId: nat,
                           caller: UserId, recs: seq<Record>, now1: Time, now2: Time)
    requires RowsInvariant(users, committed, nextId) && caller in users
    requires AllClean(recs) && Sids(recs) !! ForeignServerIds(committed, caller)
    ensures var first := UploadSpec(users, committed, nextId, caller, Some(Items(recs)), now1);
            var second := UploadSpec(users, first.rows, first.nextId, caller, Some(Items(recs)), now2);
            && first.reply == UploadReply(Ok200, Some(|recs|))
            && second.reply == first.reply
            && second.rows.Keys == first.rows.Keys
            && (forall k :: k in first.rows ==> SameButUpdatedAt(second.rows[k], first.rows[k]))
            && (forall k :: k in first.rows && Names(recs, first.rows[k]) ==> second.rows[k].updatedAt == now2)
  {
    var r1 := Run(committed, caller, now1, LoopState(committed, nextId, 0), recs);
    RunClean(committed, caller, now1, nextId, recs);
    var c1 := r1.staged;
    assert Sids(recs) !! ForeignServerIds(c1, caller) by {
      forall x | x in ForeignServerIds(c1, caller) ensures x in ForeignServerIds(committed, caller) {
        var k :| k in c1 && c1[k].userId != caller && c1[k].serverId.Val? && c1[k].serverId.value == x;
        assert k in committed && committed[k] == c1[k];
      }
    }
    var r2 := Run(c1, caller, now2, LoopState(c1, r1.nextId, 0), recs);
    RunClean(c1, caller, now2, r1.nextId, recs);
    var c2 := r2.staged;
    SecondRunAddsNoRow(c1, c2, recs);
    SecondRunSameRows(committed, caller, now1, now2, c1, c2, recs);
  }

  lemma SecondRunAddsNoRow(c1: map<RowId, Row>, c2: map<RowId, Row>, recs: seq<Record>)
    requires AllClean(recs)
    requires Admissible(c2) && Covers(recs, c1) && Untouched(c1, recs, c2)
    requires forall k :: k in c1 ==> k in c2 && SameIdentity(c2[k], c1[k])
    ensures c2.Keys == c1.Keys
  {
    forall j | j in c2 ensures j in c1 {
      if !Names(recs, c2[j]) {
        assert j in c1;
      } else {
        var sid := c2[j].serverId.value;
        assert sid in ServerIds(c1);
        var j' :| j' in c1 && c1[j'].serverId.Val? && c1[j'].serverId.value == sid;
        assert c2[j'].serverId == c2[j].serverId;
      }
    }
  }

  lemma SecondRunSameRows(committed: map<RowId, Row>, caller: UserId, now1: Time, now2: Time,
                          c1: map<RowId, Row>, c2: map<RowId, Row>, recs: seq<Record>)
    requires AllClean(recs)
    requires Carries(committed, caller, now1, recs, c1) && Carries(c1, caller, now2, recs, c2) && Untouched(c1, recs, c2)
    requires forall k :: k in c1 ==> k in c2 && SameIdentity(c2[k], c1[k])
    ensures forall k :: k in c1 ==> SameButUpdatedAt(c2[k], c1[k])
    ensures forall k :: k in c1 && Names(recs, c1[k]) ==> c2[k].updatedAt == now2
  {
    forall k | k in c1 ensures SameButUpdatedAt(c2[k], c1[k]) && (Names(recs, c1[k]) ==> c2[k].updatedAt == now2) {
      if Names(recs, c1[k]) {
        var sid := c1[k].serverId.value;
        assert c2[k].serverId == Val(sid);
        DescriptionAfterTwice(recs, sid, DescriptionBefore(committed, k));
      } else {
        assert !Names(recs, c2[k]);
      }
    }
  }

  /** Distinct server ids across a clean batch. */
  predicate DistinctSids(recs: seq<Record>)
    requires AllClean(recs)
  {
    forall i, j :: 0 <= i < j < |recs| ==> SidOf(recs[i]) != SidOf(recs[j])
  }

  /** A clean batch of distinct server ids that no row holds yet stages one
      new row per record and keeps every committed row. */
  lemma {:induction false} FreshRunGrows(committed: map<RowId, Row>, caller: UserId, now: Time, nextId: nat, recs: seq<Record>)
    requires Admissible(committed)
    requires forall k :: k in committed ==> k < nextId
    requires AllClean(recs) && DistinctSids(recs) && Sids(recs) !! ServerIds(committed)
    ensures var r := Run(committed, caller, now, LoopState(committed, nextId, 0), recs);
            committed.Keys <= r.staged.Keys && |r.staged| == |committed| + |recs|
    decreases |recs|
  {
    if recs != [] {
      var prefix := recs[..|recs| - 1];
      var rec := recs[|recs| - 1];
      var sid := SidOf(rec);
      SidsOfPrefix(recs);
      ForeignAreServerIds(committed, caller);
      FreshRunGrows(committed, caller, now, nextId, prefix);
      RunClean(committed, caller, now, nextId, prefix);
      var r := Run(committed, caller, now, LoopState(committed, nextId, 0), prefix);
      forall j | j in r.staged ensures !Owned(r.staged[j], Get(rec.serverId, Null), caller) {
        if Names(prefix, r.staged[j]) {
          var i :| 0 <= i < |prefix| && SidOf(prefix[i]) == r.staged[j].serverId.value;
          assert SidOf(recs[i]) != sid;
        } else {
          assert j in committed && r.staged[j] == committed[j];
          if committed[j].serverId.Val? {
            assert committed[j].serverId.value in ServerIds(committed);
          }
        }
      }
      StepInserts(committed, caller, now, r, rec);
    }
  }

  /** Spec-level form: such a batch succeeds, its count is its length, and
      the table grows by exactly that many rows. */
  lemma FreshBatchAddsAll(users: map<UserId, User>, committed: map<RowId, Row>, nextId: nat,
                          caller: UserId, recs: seq<Record>, now: Time)
    requires RowsInvariant(users, committed, nextId) && caller in users
    requires AllClean(recs) && DistinctSids(recs) && Sids(recs) !! ServerIds(committed)
    ensures var out := UploadSpec(users, committed, nextId, caller, Some(Items(recs)), now);
            && out.reply == UploadReply(Ok200, Some(|recs|))
            && committed.Keys <= out.rows.Keys
            && |out.rows| == |committed| + |recs|
  {
    ForeignAreServerIds(committed, caller);
    RunClean(committed, caller, now, nextId, recs);
    FreshRunGrows(committed, caller, now, nextId, recs);
  }

  /** A record naming a server id another user holds is staged as a new row
      (the lookup is per owner); when it is the last record, the commit
      violates the uniqueness of `server_id` and the whole batch is rolled back. */
  lemma ForeignServerIdAborts(users: map<UserId, User>, committed: map<RowId, Row>, nextId: nat,
                              caller: UserId, recs: seq<Record>, rec: Record, now: Time)
    requires RowsInvariant(users, committed, nextId) && caller in users
    requires AllClean(recs) && Sids(recs) !! ForeignServerIds(committed, caller)
    requires Clean(rec) && SidOf(rec) in ForeignServerIds(committed, caller)
    ensures var out := UploadSpec(users, committed, nextId, caller, Some(Items(recs + [rec])), now);
            out.reply == UploadReply(ServerError500, None) && out.rows == committed
  {
    var all := recs + [rec];
    assert all[..|all| - 1] == recs;
    var sid := SidOf(rec);
    RunClean(committed, caller, now, nextId, recs);
    var r := Run(committed, caller, now, LoopState(committed, nextId, 0), recs);
    var k0 :| k0 in committed && committed[k0].userId != caller && committed[k0].serverId.Val? && committed[k0].serverId.value == sid;
    assert r.staged[k0] == committed[k0];
    assert Passes(r.staged, rec);
    forall j | j in r.staged ensures !Owned(r.staged[j], Val(sid), caller) {
      if r.staged[j].serverId == Val(sid) {
        assert j == k0;
      }
    }
    var t := Step(committed, caller, now, r, rec);
    StepInserts(committed, caller, now, r, rec);
    assert t.staged[k0].serverId == t.staged[r.nextId].serverId;
    assert !UniqueServerIds(t.staged);
  }

  /** A record that raises rolls back the whole session, so the records
      staged before it are lost, while `uploaded_count` keeps counting them:
      the reply reports them uploaded although nothing was stored. */
  lemma FailingRecordDiscardsEarlierRecords(users: map<UserId, User>, committed: map<RowId, Row>, nextId: nat,
                                            caller: UserId, recs: seq<Record>, now: Time)
    requires RowsInvariant(users, committed, nextId) && caller in users
    requires AllClean(recs) && Sids(recs) !! ForeignServerIds(committed, caller)
    ensures var out := UploadSpec(users, committed, nextId, caller, Some(Items(recs + [Malformed])), now);
            out.reply == UploadReply(Ok200, Some(|recs|)) && out.rows == committed
  {
    var all := recs + [Malformed];
    assert all[..|all| - 1] == recs;
    RunClean(committed, caller, now, nextId, recs);
  }
}
