/** The message repository of internal/infrastructure/db/mysql_repository.go,
    given by the meaning of its SQL clauses over an in-memory table: the
    rows in insertion order plus the next auto-increment identifier.
    Database failures are not a property of the table; callers receive
    them as separate inputs. */
module MessageStore {
  import opened Wrappers
  import opened Bytes
  import opened Entity

  datatype Store = Store(rows: seq<Message>, nextId: nat)

  /** The table's invariant: identifiers and creation times strictly
      increase with insertion order, identifiers are below `nextId`, and a
      row has a sent time exactly when it is sent. Strictly increasing
      creation times is the modelling assumption that makes
      `ORDER BY created_at` the insertion order. */
  predicate Valid(st: Store) {
    && st.nextId >= 1
    && (forall k | 0 <= k < |st.rows| :: 1 <= st.rows[k].id < st.nextId)
    && (forall j, k | 0 <= j < k < |st.rows| ::
          st.rows[j].id < st.rows[k].id && st.rows[j].createdAt < st.rows[k].createdAt)
    && (forall k | 0 <= k < |st.rows| :: st.rows[k].sent <==> st.rows[k].sentAt.Some?)
  }

  /** The other half of the message invariant: every sent row carries a
      non-empty delivery identifier. `MarkSent` itself accepts any
      identifier, so this is kept by whoever supplies a non-empty one. */
  predicate SentHaveIds(st: Store) {
    forall k | 0 <= k < |st.rows| && st.rows[k].sent :: |st.rows[k].webhookMsgId| > 0
  }

  /** `Create(msg)`: inserts a row with the message's destination and
      content, unsent, with a fresh identifier and the current time as
      creation and update time. The input's `Sent`, `SentAt`,
      `WebhookMsgID` and `ID` are ignored, and the fresh identifier is not
      written back to the caller's message. */
  function Create(st: Store, msg: Message, now: int): (r: Store)
    ensures |r.rows| == |st.rows| + 1 && r.rows[..|st.rows|] == st.rows
    ensures r.nextId == st.nextId + 1
    ensures var row := r.rows[|st.rows|];
      && row.id == st.nextId
      && row.to == msg.to && row.content == msg.content
      && !row.sent && row.sentAt == None && row.webhookMsgId == []
      && row.createdAt == now && row.updatedAt == now
  {
    var row := Message(st.nextId, msg.to, msg.content, false, None, [], now, now);
    Store(st.rows + [row], st.nextId + 1)
  }

  /** Creation only depends on the destination and content of its input. */
  lemma CreateIgnoresStatus(st: Store, msg: Message, other: Message, now: int)
    requires other.to == msg.to && other.content == msg.content
    ensures Create(st, msg, now) == Create(st, other, now)
  {
  }

  /** Creating at a time later than every existing row keeps the table valid. */
  lemma CreatePreservesValid(st: Store, msg: Message, now: int)
    requires Valid(st)
    requires forall k | 0 <= k < |st.rows| :: st.rows[k].createdAt < now
    ensures Valid(Create(st, msg, now))
  {
  }

  /** The unsent rows of `rows`, in order (`WHERE sent = false`). */
  function Unsent(rows: seq<Message>): (r: seq<Message>)
    ensures |r| <= |rows|
    ensures forall i | 0 <= i < |r| :: !r[i].sent && r[i] in rows
    ensures forall m | m in rows && !m.sent :: m in r
  {
    if rows == [] then []
    else
      assert forall m | m in rows :: m == rows[0] || m in rows[1..];
      if rows[0].sent then Unsent(rows[1..])
      else [rows[0]] + Unsent(rows[1..])
  }

  /** The unsent rows of two consecutive stretches of the table. */
  lemma {:induction false} UnsentAppend(a: seq<Message>, b: seq<Message>)
    ensures Unsent(a + b) == Unsent(a) + Unsent(b)
  {
    if a == [] {
      assert a + b == b;
    } else {
      assert (a + b)[1..] == a[1..] + b;
      UnsentAppend(a[1..], b);
    }
  }

  /** An unsent row comes in `Unsent(rows)` right after the unsent rows
      that precede it in the table. */
  lemma UnsentAt(rows: seq<Message>, k: int)
    requires 0 <= k < |rows| && !rows[k].sent
    ensures |Unsent(rows[..k])| < |Unsent(rows)|
    ensures Unsent(rows)[|Unsent(rows[..k])|] == rows[k]
  {
    assert rows == rows[..k] + rows[k..];
    UnsentAppend(rows[..k], rows[k..]);
    assert rows[k..][0] == rows[k];
  }

  /** A table whose rows are unsent only where those of another are has
      no more unsent rows than it. */
  lemma {:induction false} UnsentFewer(a: seq<Message>, b: seq<Message>)
    requires |a| == |b|
    requires forall j | 0 <= j < |a| :: !a[j].sent ==> !b[j].sent
    ensures |Unsent(a)| <= |Unsent(b)|
  {
    if a != [] {
      assert !a[0].sent ==> !b[0].sent;
      UnsentFewer(a[1..], b[1..]);
    }
  }

  /** `GetUnsent(limit)`: at most `limit` unsent rows, oldest first; the
      first `limit` of the unsent rows in insertion order. */
  function GetUnsent(st: Store, limit: int): (r: seq<Message>)
    requires limit >= 1
    ensures |r| <= limit
    ensures forall i | 0 <= i < |r| :: !r[i].sent && r[i] in st.rows
    ensures |r| == if |Unsent(st.rows)| <= limit then |Unsent(st.rows)| else limit
    ensures r == Unsent(st.rows)[..|r|]
  {
    var u := Unsent(st.rows);
    if |u| > limit then u[..limit] else u
  }

  predicate CreatedAscending(s: seq<Message>) {
    forall i, j | 0 <= i < j < |s| :: s[i].createdAt < s[j].createdAt
  }

  lemma {:induction false} UnsentAscending(rows: seq<Message>)
    requires CreatedAscending(rows)
    ensures CreatedAscending(Unsent(rows))
  {
    if rows != [] {
      UnsentAscending(rows[1..]);
      var tail := Unsent(rows[1..]);
      forall i | 0 <= i < |tail|
        ensures rows[0].createdAt < tail[i].createdAt
      {
        var k :| 0 <= k < |rows[1..]| && rows[1..][k] == tail[i];
        assert rows[k + 1] == tail[i];
      }
    }
  }

  /** `GetUnsent` is ordered by creation time, and it is the oldest unsent
      rows: every unsent row it leaves out is newer than all it returns. */
  lemma GetUnsentOldestFirst(st: Store, limit: int)
    requires Valid(st) && limit >= 1
    ensures CreatedAscending(GetUnsent(st, limit))
    ensures forall m, i | m in st.rows && !m.sent && m !in GetUnsent(st, limit) && 0 <= i < |GetUnsent(st, limit)| ::
              GetUnsent(st, limit)[i].createdAt < m.createdAt
  {
    var u := Unsent(st.rows);
    var r := GetUnsent(st, limit);
    UnsentAscending(st.rows);
    forall m, i | m in st.rows && !m.sent && m !in r && 0 <= i < |r|
      ensures r[i].createdAt < m.createdAt
    {
      var p :| 0 <= p < |u| && u[p] == m;
      assert |r| <= p;
      assert r[i] == u[i];
    }
  }

  /** The row as `MarkSent(id, webhookMsgId)` leaves it at time `now`: the
      entity's transition, plus gorm's automatic update time. */
  function Stamp(m: Message, webhookId: Bytes, now: int): Message {
    Entity.MarkSent(m, webhookId, now).(updatedAt := now)
  }

  /** `MarkSent(id, webhookMsgId)`: every row with that identifier becomes
      sent with the given delivery identifier and the current time; every
      other row is unchanged, and no row is added or removed. An unknown
      identifier changes nothing and is not an error. */
  function MarkSent(st: Store, id: nat, webhookId: Bytes, now: int): (r: Store)
    ensures |r.rows| == |st.rows| && r.nextId == st.nextId
    ensures forall k | 0 <= k < |st.rows| && st.rows[k].id != id :: r.rows[k] == st.rows[k]
    ensures forall k | 0 <= k < |st.rows| && st.rows[k].id == id ::
              && r.rows[k].sent && r.rows[k].webhookMsgId == webhookId && r.rows[k].sentAt == Some(now)
              && r.rows[k].id == id && r.rows[k].to == st.rows[k].to && r.rows[k].content == st.rows[k].content
              && r.rows[k].createdAt == st.rows[k].createdAt && r.rows[k].updatedAt == now
  {
    Store(seq(|st.rows|, k requires 0 <= k < |st.rows| =>
            if st.rows[k].id == id then Stamp(st.rows[k], webhookId, now) else st.rows[k]),
          st.nextId)
  }

  lemma MarkSentPreservesValid(st: Store, id: nat, webhookId: Bytes, now: int)
    requires Valid(st)
    ensures Valid(MarkSent(st, id, webhookId, now))
  {
  }

  /** Marking an identifier that no row has leaves the table as it was. */
  lemma MarkSentUnknownId(st: Store, id: nat, webhookId: Bytes, now: int)
    requires forall k | 0 <= k < |st.rows| :: st.rows[k].id != id
    ensures MarkSent(st, id, webhookId, now) == st
  {
  }

  /** Sent time as a sort key; a sent row always has one in a valid table. */
  function SentKey(m: Message): int {
    m.sentAt.GetOr(0)
  }

  predicate SentDescending(s: seq<Message>) {
    forall i, j | 0 <= i < j < |s| :: SentKey(s[i]) >= SentKey(s[j])
  }

  /** The sent rows of `rows`, in order (`WHERE sent = true`). */
  function SentRows(rows: seq<Message>): (r: seq<Message>)
    ensures forall i | 0 <= i < |r| :: r[i].sent && r[i] in rows
    ensures forall m | m in rows && m.sent :: m in r
  {
    if rows == [] then []
    else
      assert forall m | m in rows :: m == rows[0] || m in rows[1..];
      if rows[0].sent then [rows[0]] + SentRows(rows[1..])
      else SentRows(rows[1..])
  }

  /** Putting an element no older than all of a sorted sequence in front
      keeps it sorted. */
  lemma ConsDescending(x: Message, s: seq<Message>)
    requires SentDescending(s)
    requires forall i | 0 <= i < |s| :: SentKey(s[i]) <= SentKey(x)
    ensures SentDescending([x] + s)
  {
  }

  function InsertBySentAt(m: Message, s: seq<Message>): (r: seq<Message>)
    requires SentDescending(s)
    ensures SentDescending(r)
    ensures multiset(r) == multiset(s) + multiset{m}
    ensures forall x | x in r :: x == m || x in s
  {
    if s == [] || SentKey(m) >= SentKey(s[0]) then
      ConsDescending(m, s);
      [m] + s
    else
      var rest := InsertBySentAt(m, s[1..]);
      assert forall i | 0 <= i < |rest| :: SentKey(rest[i]) <= SentKey(s[0]) by {
        forall i | 0 <= i < |rest|
          ensures SentKey(rest[i]) <= SentKey(s[0])
        {
          assert rest[i] in rest;
          if rest[i] != m {
            var k :| 0 <= k < |s[1..]| && s[1..][k] == rest[i];
            assert s[k + 1] == rest[i];
          }
        }
      }
      ConsDescending(s[0], rest);
      assert s == [s[0]] + s[1..];
      [s[0]] + rest
  }

  /** Insertion sort by sent time, most recent first (`ORDER BY sent_at
      DESC`); equal sent times keep no particular order in MySQL, and this
      model fixes one. */
  function SortBySentAt(s: seq<Message>): (r: seq<Message>)
    ensures SentDescending(r)
    ensures multiset(r) == multiset(s)
  {
    if s == [] then []
    else
      assert s == [s[0]] + s[1..];
      InsertBySentAt(s[0], SortBySentAt(s[1..]))
  }

  /** `ListSent()`: exactly the sent rows, each as often as it occurs,
      most recently sent first. */
  function ListSent(st: Store): (r: seq<Message>)
    ensures forall i | 0 <= i < |r| :: r[i].sent && r[i] in st.rows
    ensures forall m | m in st.rows && m.sent :: m in r
    ensures multiset(r) == multiset(SentRows(st.rows))
    ensures SentDescending(r)
  {
    var r := SortBySentAt(SentRows(st.rows));
    assert forall i | 0 <= i < |r| :: r[i] in multiset(SentRows(st.rows));
    assert forall m | m in SentRows(st.rows) :: m in multiset(r);
    r
  }

  /** After `MarkSent(id, w)` on a row of a valid table, no row with that
      identifier is returned by any `GetUnsent`, and `ListSent` holds a row
      with that identifier, delivery identifier `w` and a sent time. */
  lemma MarkSentThenListed(st: Store, k: nat, webhookId: Bytes, now: int, limit: int)
    requires Valid(st) && k < |st.rows| && limit >= 1
    ensures var st' := MarkSent(st, st.rows[k].id, webhookId, now);
      && (forall i | 0 <= i < |GetUnsent(st', limit)| :: GetUnsent(st', limit)[i].id != st.rows[k].id)
      && (exists m | m in ListSent(st') :: m.id == st.rows[k].id && m.webhookMsgId == webhookId && m.sentAt == Some(now))
  {
  }

  /** When the table changes only by rows becoming sent, an unsent row
      that stays as it was is fetched again, no later in the batch than
      before. */
  lemma StillFetched(st: Store, st': Store, k: int, limit: int, i: int)
    requires Valid(st) && limit >= 1 && |st'.rows| == |st.rows|
    requires forall j | 0 <= j < |st.rows| :: st'.rows[j] == st.rows[j] || st'.rows[j].sent
    requires 0 <= k < |st.rows| && st'.rows[k] == st.rows[k]
    requires 0 <= i < |GetUnsent(st, limit)| && GetUnsent(st, limit)[i] == st.rows[k]
    ensures exists j | 0 <= j <= i && j < |GetUnsent(st', limit)| :: GetUnsent(st', limit)[j] == st.rows[k]
  {
    var u := Unsent(st.rows);
    UnsentAt(st.rows, k);
    var p := |Unsent(st.rows[..k])|;
    UnsentAscending(st.rows);
    assert u[p] == u[i];
    assert p == i;
    UnsentFewer(st'.rows[..k], st.rows[..k]);
    UnsentAt(st'.rows, k);
    var q := |Unsent(st'.rows[..k])|;
    assert GetUnsent(st', limit)[q] == Unsent(st'.rows)[q];
  }

  /** A sent row of a valid table is in no `GetUnsent` batch, not even
      under another row's guise, and is listed by `ListSent`. */
  lemma SentNotFetched(st: Store, k: int, limit: int)
    requires Valid(st) && 0 <= k < |st.rows| && st.rows[k].sent && limit >= 1
    ensures forall j | 0 <= j < |GetUnsent(st, limit)| :: GetUnsent(st, limit)[j].id != st.rows[k].id
    ensures st.rows[k] in ListSent(st)
  {
    var r := GetUnsent(st, limit);
    forall j | 0 <= j < |r|
      ensures r[j].id != st.rows[k].id
    {
      var x :| 0 <= x < |st.rows| && st.rows[x] == r[j];
      assert x != k;
    }
  }
}
