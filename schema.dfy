/** The two tables of the accounting backend (`users` and `transactions`),
    their column constraints, and the response status codes. */
module Schema {

  datatype Option<T> = None | Some(value: T)

  /** A column value as the database holds it: SQL NULL or a value. */
  datatype Cell<T> = Null | Val(value: T)

  type UserId = nat
  type RowId = nat

  /** A UTC timestamp; the clock is a parameter of every operation that reads it. */
  type Time = int

  /** HTTP status classes returned by the endpoints. */
  datatype Status = Ok200 | Created201 | BadRequest400 | Unauthorized401 | NotFound404 | ServerError500

  /** A row of `users`: the password is held only as its salted hash. */
  datatype User = User(username: string, passwordHash: string)

  /** A row of `transactions`, keyed in the store by its `id`.
      `kind` is the column `type` (0 expense, 1 income, not enforced);
      `amount` is Numeric(10, 2) held as a whole number of cents.
      `created_at` and `updated_at` are nullable columns, but their
      defaults fill them on every insert and update, so they are never null
      here. */
  datatype Row = Row(
    userId: UserId,
    serverId: Cell<int>,
    amount: Cell<int>,
    kind: Cell<int>,
    categoryId: Cell<int>,
    date: Cell<string>,
    description: Cell<string>,
    createdAt: Time,
    updatedAt: Time)

  const INT32_MIN: int := -0x8000_0000
  const INT32_MAX: int := 0x7FFF_FFFF

  /** Numeric(10, 2): ten digits in all, so at most 99999999.99. */
  const AMOUNT_LIMIT_CENTS: int := 10_000_000_000

  const USERNAME_MAX: nat := 80
  const PASSWORD_HASH_MAX: nat := 255
  const DATE_MAX: nat := 20

  predicate IsInt32(v: int) {
    INT32_MIN <= v <= INT32_MAX
  }

  /** A non-null Integer column holding a value PostgreSQL accepts. */
  predicate IntColumn(c: Cell<int>) {
    c.Val? && IsInt32(c.value)
  }

  /** The per-row constraints of `transactions`: NOT NULL on `server_id`,
      `amount`, `type`, `category_id` and `date`, the width of Integer,
      Numeric(10, 2) and String(20). `user_id` is NOT NULL too; the row's
      type holds it as a number, never null. */
  predicate RowFits(r: Row) {
    && IntColumn(r.serverId)
    && r.amount.Val? && -AMOUNT_LIMIT_CENTS < r.amount.value < AMOUNT_LIMIT_CENTS
    && IntColumn(r.kind)
    && IntColumn(r.categoryId)
    && r.date.Val? && |r.date.value| <= DATE_MAX
  }

  /** The UNIQUE constraint on `transactions.server_id`, across all owners. */
  predicate UniqueServerIds(rows: map<RowId, Row>) {
    forall j, k :: j in rows && k in rows && j != k ==> rows[j].serverId != rows[k].serverId
  }

  /** What a flush or a commit of `transactions` checks. */
  predicate Admissible(rows: map<RowId, Row>) {
    && (forall k :: k in rows ==> RowFits(rows[k]))
    && UniqueServerIds(rows)
  }

  /** The server ids held by some row. */
  function ServerIds(rows: map<RowId, Row>): set<int> {
    set k | k in rows && rows[k].serverId.Val? :: rows[k].serverId.value
  }

  /** The column constraints of `users`: String(80) and String(255). */
  predicate UserFits(u: User) {
    |u.username| <= USERNAME_MAX && |u.passwordHash| <= PASSWORD_HASH_MAX
  }

  /** The UNIQUE constraint on `users.username`. */
  predicate UniqueUsernames(users: map<UserId, User>) {
    forall i, j :: i in users && j in users && i != j ==> users[i].username != users[j].username
  }

  /** What holds of `transactions` between requests: the schema's
      constraints, ids handed out by the sequence, and the foreign key
      `user_id` into `users`. */
  ghost predicate RowsInvariant(users: map<UserId, User>, rows: map<RowId, Row>, nextRowId: nat) {
    && Admissible(rows)
    && forall k :: k in rows ==> k < nextRowId && rows[k].userId in users
  }

  /** What holds of `users` between requests. */
  ghost predicate UsersInvariant(users: map<UserId, User>, nextUserId: nat) {
    && UniqueUsernames(users)
    && forall u :: u in users ==> u < nextUserId && UserFits(users[u])
  }
}
