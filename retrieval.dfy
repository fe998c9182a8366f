/** The download endpoint: every committed row the caller owns, each as the
    dictionary `to_dict` builds. */
module Retrieval {
  import opened Schema

  /** The output of `to_dict`; `amount` stays in cents and the timestamps
      stay values (the float conversion and ISO rendering are not modelled). */
  datatype Snapshot = Snapshot(
    id: RowId,
    userId: UserId,
    serverId: Cell<int>,
    amount: Cell<int>,
    kind: Cell<int>,
    categoryId: Cell<int>,
    date: Cell<string>,
    description: Cell<string>,
    createdAt: Time,
    updatedAt: Time)

  /** `to_dict`: the row's id and every one of its columns. The row can be
      read back from the snapshot, so no column is lost or altered. */
  function ToDict(id: RowId, r: Row): (s: Snapshot)
    ensures s.id == id && s.userId == r.userId
    ensures FromSnapshot(s) == r
  {
    Snapshot(id, r.userId, r.serverId, r.amount, r.kind, r.categoryId, r.date, r.description,
             r.createdAt, r.updatedAt)
  }

  /** The row a snapshot was taken of: the inverse of `ToDict`. */
  function FromSnapshot(s: Snapshot): Row {
    Row(s.userId, s.serverId, s.amount, s.kind, s.categoryId, s.date, s.description, s.createdAt, s.updatedAt)
  }

  /** A snapshot is the `to_dict` of the row it names. */
  lemma SnapshotRoundTrip(s: Snapshot)
    ensures ToDict(s.id, FromSnapshot(s)) == s
  {
  }

  /** The ids of the rows `caller` owns: `filter_by(user_id=caller)`. */
  function OwnedKeys(rows: map<RowId, Row>, caller: UserId): (keys: set<RowId>)
    ensures keys <= rows.Keys
    ensures forall k :: k in keys ==> rows[k].userId == caller
  {
    set k | k in rows && rows[k].userId == caller
  }

  /** The list comprehension over the query's rows: one `to_dict` per key,
      each entry the snapshot of the row its id names. */
  function Snapshots(rows: map<RowId, Row>, keys: set<RowId>): (snaps: set<Snapshot>)
    requires keys <= rows.Keys
    ensures forall x :: x in snaps ==> x.id in keys && FromSnapshot(x) == rows[x.id]
  {
    set k | k in keys :: ToDict(k, rows[k])
  }

  /** The list is returned in no promised order, so the reply holds a set. */
  datatype DownloadReply = DownloadReply(status: Status, transactions: Option<set<Snapshot>>)

  /** Exactly the committed rows whose owner is the caller; 404 when the
      caller no longer exists. */
  function Download(users: map<UserId, User>, rows: map<RowId, Row>, caller: UserId): (r: DownloadReply)
    ensures r.status == Ok200 <==> caller in users
    ensures r.status != Ok200 ==> r == DownloadReply(NotFound404, None)
    ensures r.status == Ok200 ==> r.transactions.Some?
    ensures r.transactions.Some? ==>
              forall s :: s in r.transactions.value ==>
                s.id in rows && s.userId == caller && s == ToDict(s.id, rows[s.id])
    ensures r.transactions.Some? ==>
              forall k :: k in rows && rows[k].userId == caller ==> ToDict(k, rows[k]) in r.transactions.value
    ensures caller in users && OwnedKeys(rows, caller) == {} ==> r == DownloadReply(Ok200, Some({}))
  {
    if caller !in users then DownloadReply(NotFound404, None)
    else
      var owned := OwnedKeys(rows, caller);
      SnapshotCount(rows, owned);
      DownloadReply(Ok200, Some(Snapshots(rows, owned)))
  }

  /** One snapshot per owned row: the list has as many entries as the caller owns rows. */
  lemma {:induction false} SnapshotCount(rows: map<RowId, Row>, keys: set<RowId>)
    requires keys <= rows.Keys
    ensures |Snapshots(rows, keys)| == |keys|
    decreases keys
  {
    if keys != {} {
      var k :| k in keys;
      var rest := keys - {k};
      SnapshotCount(rows, rest);
      assert Snapshots(rows, keys) == Snapshots(rows, rest) + {ToDict(k, rows[k])};
      assert ToDict(k, rows[k]) !in Snapshots(rows, rest);
    }
  }

  lemma DownloadCount(users: map<UserId, User>, rows: map<RowId, Row>, caller: UserId)
    requires caller in users
    ensures |Download(users, rows, caller).transactions.value| == |OwnedKeys(rows, caller)|
  {
    SnapshotCount(rows, OwnedKeys(rows, caller));
  }
}
