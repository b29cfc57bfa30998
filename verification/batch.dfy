/** `SendBatchUseCase.Execute` of internal/application/send_batch.go: one
    tick of the delivery pipeline. The message store is the in-memory table
    of `MessageStore`; the world outside the process (database failures,
    the webhook's replies, `crypto/rand`, the wall clock) is an `Env`
    indexed by the position of the message in the batch. The Redis write
    after a successful send is not modelled. */
module Batch {
  import opened Wrappers
  import opened Bytes
  import opened Config
  import opened Entity
  import opened MessageStore
  import opened Webhook

  /** What happens outside the process during one `Execute`, by the
      position `i` of the message in the fetched batch: whether the fetch
      query fails, the webhook's reply to the i-th request, the random
      bytes read for the i-th UUID (None: the read failed), whether the
      i-th `MarkSent` update fails, and the time at which it runs. A
      deadline that expires while sending shows up as a transport failure
      in `reply`. */
  datatype Env = Env(
    fetchFails: bool,
    reply: (nat, Request) -> Reply,
    random: nat -> Option<Bytes>,
    markFails: nat -> bool,
    clock: nat -> int)

  /** `crypto/rand.Read` fills the whole 16-byte buffer when it succeeds. */
  ghost predicate RandomOk(env: Env) {
    forall i: nat :: env.random(i).Some? ==> |env.random(i).value| == 16
  }

  datatype ExecError = FetchFailed

  /** A `MarkSent(id, webhookId)` call and whether the update reached the
      table. */
  datatype MarkCall = MarkCall(id: nat, webhookId: Bytes, persisted: bool)

  /** One iteration of the loop: the message handed to the sender, what
      the sender returned, and the `MarkSent` call made, if any. */
  datatype Attempt = Attempt(message: Message, result: Result<Bytes, SendError>, mark: Option<MarkCall>)

  predicate Persisted(a: Attempt) {
    a.mark.Some? && a.mark.value.persisted
  }

  /** What the i-th attempt must be for the fetched row `row`: the row
      with its content cut to the character limit (a copy: the table keeps
      the full content), sent once through the webhook, and marked sent
      with the returned identifier exactly when the send succeeded. */
  predicate AttemptFor(cfg: Config, env: Env, i: nat, row: Message, a: Attempt)
    requires cfg.msgCharLimit >= 0 && RandomOk(env)
  {
    && a.message == row.(content := a.message.content)
    && |a.message.content| <= cfg.msgCharLimit
    && HasPrefix(row.content, a.message.content)
    && (|row.content| <= cfg.msgCharLimit ==> a.message.content == row.content)
    && (|row.content| > cfg.msgCharLimit ==> |a.message.content| == cfg.msgCharLimit)
    && a.result == Webhook.Send(env.reply(i, BuildRequest(cfg, a.message)), env.random(i))
    && (a.mark.Some? <==> a.result.Success?)
    && (a.result.Success? ==> a.mark == Some(MarkCall(row.id, a.result.value, !env.markFails(i))))
  }

  /** The rows of a fetched batch have pairwise distinct identifiers. */
  lemma BatchIdsDistinct(st: Store, limit: int)
    requires Valid(st) && limit >= 1
    ensures var b := GetUnsent(st, limit);
      forall j, k | 0 <= j < |b| && 0 <= k < |b| && j != k :: b[j].id != b[k].id
  {
    var b := GetUnsent(st, limit);
    GetUnsentOldestFirst(st, limit);
    forall j, k | 0 <= j < |b| && 0 <= k < |b| && j != k
      ensures b[j].id != b[k].id
    {
      var x :| 0 <= x < |st.rows| && st.rows[x] == b[j];
      var y :| 0 <= y < |st.rows| && st.rows[y] == b[k];
      assert x != y;
    }
  }

  /** The table after the persisted `MarkSent` calls of `attempts`, in
      order; the i-th runs at `clock(i)`. */
  function ApplyMarks(st: Store, attempts: seq<Attempt>, clock: nat -> int): Store
    decreases |attempts|
  {
    if attempts == [] then st
    else
      var last := |attempts| - 1;
      var prev := ApplyMarks(st, attempts[..last], clock);
      var a := attempts[last];
      if Persisted(a) then MessageStore.MarkSent(prev, a.mark.value.id, a.mark.value.webhookId, clock(last))
      else prev
  }

  /** No two persisted marks name the same row. */
  predicate MarksDistinct(attempts: seq<Attempt>) {
    forall i, j | 0 <= i < |attempts| && 0 <= j < |attempts| && i != j && Persisted(attempts[i]) && Persisted(attempts[j]) ::
      attempts[i].mark.value.id != attempts[j].mark.value.id
  }

  /** No persisted mark among `attempts` names identifier `id`. */
  predicate Unmarked(attempts: seq<Attempt>, id: nat) {
    forall i | 0 <= i < |attempts| && Persisted(attempts[i]) :: attempts[i].mark.value.id != id
  }

  /** Applying marks keeps the table valid, keeps every row in place with
      its identifier, destination, content and creation time. */
  lemma {:induction false} ApplyMarksKeeps(st: Store, attempts: seq<Attempt>, clock: nat -> int)
    requires Valid(st)
    ensures var r := ApplyMarks(st, attempts, clock);
      && Valid(r) && |r.rows| == |st.rows| && r.nextId == st.nextId
      && forall k | 0 <= k < |st.rows| ::
           && r.rows[k].id == st.rows[k].id && r.rows[k].to == st.rows[k].to
           && r.rows[k].content == st.rows[k].content && r.rows[k].createdAt == st.rows[k].createdAt
    decreases |attempts|
  {
    if attempts != [] {
      var last := |attempts| - 1;
      ApplyMarksKeeps(st, attempts[..last], clock);
      var a := attempts[last];
      if Persisted(a) {
        MarkSentPreservesValid(ApplyMarks(st, attempts[..last], clock), a.mark.value.id, a.mark.value.webhookId, clock(last));
      }
    }
  }

  /** A row no persisted mark names is untouched; a row a persisted mark
      names is stamped by that mark, provided no two marks name the same
      row. */
  lemma {:induction false} ApplyMarksRows(st: Store, attempts: seq<Attempt>, clock: nat -> int)
    requires Valid(st) && MarksDistinct(attempts)
    ensures var r := ApplyMarks(st, attempts, clock);
      |r.rows| == |st.rows|
      && (forall k | 0 <= k < |st.rows| && Unmarked(attempts, st.rows[k].id) :: r.rows[k] == st.rows[k])
      && (forall i, k | 0 <= i < |attempts| && Persisted(attempts[i]) && 0 <= k < |st.rows| && st.rows[k].id == attempts[i].mark.value.id ::
            r.rows[k] == Stamp(st.rows[k], attempts[i].mark.value.webhookId, clock(i)))
    decreases |attempts|
  {
    ApplyMarksKeeps(st, attempts, clock);
    if attempts != [] {
      var last := |attempts| - 1;
      var init := attempts[..last];
      assert MarksDistinct(init) by {
        forall i, j | 0 <= i < |init| && 0 <= j < |init| && i != j && Persisted(init[i]) && Persisted(init[j])
          ensures init[i].mark.value.id != init[j].mark.value.id
        {
          assert init[i] == attempts[i] && init[j] == attempts[j];
        }
      }
      ApplyMarksRows(st, init, clock);
      ApplyMarksKeeps(st, init, clock);
      var prev := ApplyMarks(st, init, clock);
      var r := ApplyMarks(st, attempts, clock);
      var a := attempts[last];
      forall k | 0 <= k < |st.rows| && Unmarked(attempts, st.rows[k].id)
        ensures r.rows[k] == st.rows[k]
      {
        assert Unmarked(init, st.rows[k].id) by {
          forall i | 0 <= i < |init| && Persisted(init[i])
            ensures init[i].mark.value.id != st.rows[k].id
          {
            assert init[i] == attempts[i];
          }
        }
      }
      forall i, k | 0 <= i < |attempts| && Persisted(attempts[i]) && 0 <= k < |st.rows| && st.rows[k].id == attempts[i].mark.value.id
        ensures r.rows[k] == Stamp(st.rows[k], attempts[i].mark.value.webhookId, clock(i))
      {
        if i == last {
          assert Unmarked(init, st.rows[k].id) by {
            forall j | 0 <= j < |init| && Persisted(init[j])
              ensures init[j].mark.value.id != st.rows[k].id
            {
              assert init[j] == attempts[j];
            }
          }
        } else {
          assert init[i] == attempts[i];
        }
      }
    }
  }

  /** What one run of `Execute` against the table `st` produces, given
      the outside world `env`: the error, the table afterwards and the
      attempts made.
      - A failed fetch is the only error returned, and then nothing is
        sent and nothing changes.
      - Otherwise every fetched message is attempted once, in fetch order,
        as `AttemptFor` describes: only a successful send leads to
        `MarkSent`, and a failed update is swallowed.
      - The table keeps its rows, their identifiers and their full
        content, and stays valid.
      - A row changes only when a persisted `MarkSent` names it, and is
        then stamped with that mark's webhook id and time.
      - A row whose send failed is unchanged and unsent. */
  ghost predicate ExecuteOutcome(cfg: Config, env: Env, st: Store, err: Option<ExecError>, st': Store, attempts: seq<Attempt>)
    requires cfg.msgPerTick >= 1 && cfg.msgCharLimit >= 0 && RandomOk(env)
  {
    var batch := GetUnsent(st, cfg.msgPerTick);
    && (env.fetchFails ==> err == Some(FetchFailed) && st' == st && attempts == [])
    && (!env.fetchFails ==> err == None && |attempts| == |batch|)
    && |attempts| <= |batch| <= cfg.msgPerTick
    && (forall i | 0 <= i < |attempts| :: AttemptFor(cfg, env, i, batch[i], attempts[i]))
    && Valid(st') && |st'.rows| == |st.rows| && st'.nextId == st.nextId
    && (forall k | 0 <= k < |st.rows| ::
          && st'.rows[k].id == st.rows[k].id && st'.rows[k].to == st.rows[k].to
          && st'.rows[k].content == st.rows[k].content && st'.rows[k].createdAt == st.rows[k].createdAt)
    && (forall k | 0 <= k < |st.rows| && Unmarked(attempts, st.rows[k].id) :: st'.rows[k] == st.rows[k])
    && (forall i, k | 0 <= i < |attempts| && Persisted(attempts[i]) && 0 <= k < |st.rows| && st.rows[k].id == attempts[i].message.id ::
          st'.rows[k] == Stamp(st.rows[k], attempts[i].mark.value.webhookId, env.clock(i)))
    && (forall i, k | 0 <= i < |attempts| && attempts[i].result.Failure? && 0 <= k < |st.rows| && st.rows[k].id == attempts[i].message.id ::
          st'.rows[k] == st.rows[k] && !st'.rows[k].sent)
  }

  /** `SendBatchUseCase.Execute`: fetch a batch of unsent messages, send
      each with its content cut to the limit, and mark the delivered ones
      sent. */
  method Execute(cfg: Config, st: Store, env: Env) returns (err: Option<ExecError>, st': Store, attempts: seq<Attempt>)
    requires Valid(st)
    requires cfg.msgPerTick >= 1 && cfg.msgCharLimit >= 0
    requires RandomOk(env)
    ensures ExecuteOutcome(cfg, env, st, err, st', attempts)
  {
    if env.fetchFails {
      return Some(FetchFailed), st, [];
    }
    st', attempts := SendAll(cfg, env, st, GetUnsent(st, cfg.msgPerTick));
    err := None;
    BatchMarksDistinct(cfg, env, st, attempts);
    ApplyMarksKeeps(st, attempts, env.clock);
    ApplyMarksRows(st, attempts, env.clock);
    FailedStaysUnmarked(cfg, env, st, attempts);
  }

  /** The loop of `Execute` over the fetched `batch`: each message, with
      its content cut to the limit, goes to the sender once and in order,
      and a successful send is followed by `MarkSent`. */
  method SendAll(cfg: Config, env: Env, st: Store, batch: seq<Message>) returns (st': Store, attempts: seq<Attempt>)
    requires cfg.msgCharLimit >= 0 && RandomOk(env)
    ensures |attempts| == |batch|
    ensures forall i | 0 <= i < |batch| :: AttemptFor(cfg, env, i, batch[i], attempts[i])
    ensures st' == ApplyMarks(st, attempts, env.clock)
  {
    st' := st;
    attempts := [];
    var i := 0;
    while i < |batch|
      invariant 0 <= i <= |batch| && |attempts| == i
      invariant forall j | 0 <= j < i :: AttemptFor(cfg, env, j, batch[j], attempts[j])
      invariant st' == ApplyMarks(st, attempts, env.clock)
    {
      var m := batch[i].(content := Truncate(batch[i].content, cfg.msgCharLimit));
      var res := Webhook.Send(env.reply(i, BuildRequest(cfg, m)), env.random(i));
      var mark: Option<MarkCall> := None;
      if res.Success? {
        var persisted := !env.markFails(i);
        if persisted {
          st' := MessageStore.MarkSent(st', m.id, res.value, env.clock(i));
        }
        mark := Some(MarkCall(m.id, res.value, persisted));
      }
      var a := Attempt(m, res, mark);
      assert AttemptFor(cfg, env, i, batch[i], a);
      assert (attempts + [a])[..i] == attempts;
      assert forall j | 0 <= j < i :: (attempts + [a])[j] == attempts[j];
      attempts := attempts + [a];
      i := i + 1;
    }
  }

  /** The marks of a run name the rows of the batch, so they are distinct. */
  lemma BatchMarksDistinct(cfg: Config, env: Env, st: Store, attempts: seq<Attempt>)
    requires Valid(st) && cfg.msgPerTick >= 1 && cfg.msgCharLimit >= 0 && RandomOk(env)
    requires |attempts| <= |GetUnsent(st, cfg.msgPerTick)|
    requires forall i | 0 <= i < |attempts| :: AttemptFor(cfg, env, i, GetUnsent(st, cfg.msgPerTick)[i], attempts[i])
    ensures MarksDistinct(attempts)
    ensures forall i | 0 <= i < |attempts| && Persisted(attempts[i]) :: attempts[i].mark.value.id == attempts[i].message.id
  {
    BatchIdsDistinct(st, cfg.msgPerTick);
  }

  /** A message whose send failed is named by no persisted mark, and its
      row is an unsent row of the table. */
  lemma FailedStaysUnmarked(cfg: Config, env: Env, st: Store, attempts: seq<Attempt>)
    requires Valid(st) && cfg.msgPerTick >= 1 && cfg.msgCharLimit >= 0 && RandomOk(env)
    requires |attempts| <= |GetUnsent(st, cfg.msgPerTick)|
    requires forall i | 0 <= i < |attempts| :: AttemptFor(cfg, env, i, GetUnsent(st, cfg.msgPerTick)[i], attempts[i])
    ensures forall i, k | 0 <= i < |attempts| && attempts[i].result.Failure? && 0 <= k < |st.rows| && st.rows[k].id == attempts[i].message.id ::
              Unmarked(attempts, st.rows[k].id) && !st.rows[k].sent
  {
    var b := GetUnsent(st, cfg.msgPerTick);
    BatchIdsDistinct(st, cfg.msgPerTick);
    forall i, k | 0 <= i < |attempts| && attempts[i].result.Failure? && 0 <= k < |st.rows| && st.rows[k].id == attempts[i].message.id
      ensures Unmarked(attempts, st.rows[k].id) && !st.rows[k].sent
    {
      var x :| 0 <= x < |st.rows| && st.rows[x] == b[i];
      assert x == k;
    }
  }

  /** `Execute` changes a row only by marking it sent. */
  lemma ExecuteOnlyMarks(cfg: Config, env: Env, st: Store, err: Option<ExecError>, st': Store, attempts: seq<Attempt>)
    requires cfg.msgPerTick >= 1 && cfg.msgCharLimit >= 0 && RandomOk(env)
    requires ExecuteOutcome(cfg, env, st, err, st', attempts)
    ensures forall k | 0 <= k < |st.rows| :: st'.rows[k] == st.rows[k] || st'.rows[k].sent
  {
    var b := GetUnsent(st, cfg.msgPerTick);
    forall k | 0 <= k < |st.rows|
      ensures st'.rows[k] == st.rows[k] || st'.rows[k].sent
    {
      if !Unmarked(attempts, st.rows[k].id) {
        var i :| 0 <= i < |attempts| && Persisted(attempts[i]) && attempts[i].mark.value.id == st.rows[k].id;
        assert AttemptFor(cfg, env, i, b[i], attempts[i]);
        assert attempts[i].message.id == st.rows[k].id;
        assert st'.rows[k] == Stamp(st.rows[k], attempts[i].mark.value.webhookId, env.clock(i));
      } else {
        assert st'.rows[k] == st.rows[k];
      }
    }
  }

  /** A message that was not marked sent, because its send failed or
      because `MarkSent` failed, is fetched again by the next run: the next
      batch holds the row as it was, at a position no later than in this
      batch, so it will be resent. */
  lemma UnpersistedFetchedNext(cfg: Config, env: Env, st: Store, err: Option<ExecError>, st': Store, attempts: seq<Attempt>, i: int)
    requires Valid(st) && cfg.msgPerTick >= 1 && cfg.msgCharLimit >= 0 && RandomOk(env)
    requires ExecuteOutcome(cfg, env, st, err, st', attempts)
    requires 0 <= i < |attempts| && !Persisted(attempts[i])
    ensures exists j | 0 <= j <= i && j < |GetUnsent(st', cfg.msgPerTick)| ::
              GetUnsent(st', cfg.msgPerTick)[j] == GetUnsent(st, cfg.msgPerTick)[i]
  {
    var b := GetUnsent(st, cfg.msgPerTick);
    var k :| 0 <= k < |st.rows| && st.rows[k] == b[i];
    BatchIdsDistinct(st, cfg.msgPerTick);
    forall j | 0 <= j < |attempts| && Persisted(attempts[j])
      ensures attempts[j].mark.value.id != st.rows[k].id
    {
      assert AttemptFor(cfg, env, j, b[j], attempts[j]);
      assert j != i;
    }
    assert Unmarked(attempts, st.rows[k].id);
    assert st'.rows[k] == st.rows[k];
    ExecuteOnlyMarks(cfg, env, st, err, st', attempts);
    StillFetched(st, st', k, cfg.msgPerTick, i);
  }

  /** Sent rows are settled: a run leaves every row that was already sent
      exactly as it was, and when every sent row carries a delivery
      identifier before a run, every sent row does after it. */
  lemma SentRowsSettled(cfg: Config, env: Env, st: Store, err: Option<ExecError>, st': Store, attempts: seq<Attempt>)
    requires Valid(st) && cfg.msgPerTick >= 1 && cfg.msgCharLimit >= 0 && RandomOk(env)
    requires ExecuteOutcome(cfg, env, st, err, st', attempts)
    ensures forall k | 0 <= k < |st.rows| && st.rows[k].sent :: st'.rows[k] == st.rows[k]
    ensures SentHaveIds(st) ==> SentHaveIds(st')
  {
    var b := GetUnsent(st, cfg.msgPerTick);
    forall k | 0 <= k < |st.rows| && st.rows[k].sent
      ensures st'.rows[k] == st.rows[k]
    {
      SentNotFetched(st, k, cfg.msgPerTick);
      forall j | 0 <= j < |attempts| && Persisted(attempts[j])
        ensures attempts[j].mark.value.id != st.rows[k].id
      {
        assert AttemptFor(cfg, env, j, b[j], attempts[j]);
      }
      assert Unmarked(attempts, st.rows[k].id);
    }
    if SentHaveIds(st) {
      forall k | 0 <= k < |st'.rows| && st'.rows[k].sent
        ensures |st'.rows[k].webhookMsgId| > 0
      {
        if Unmarked(attempts, st.rows[k].id) {
          assert st'.rows[k] == st.rows[k];
        } else {
          var j :| 0 <= j < |attempts| && Persisted(attempts[j]) && attempts[j].mark.value.id == st.rows[k].id;
          assert AttemptFor(cfg, env, j, b[j], attempts[j]);
          assert st.rows[k].id == attempts[j].message.id;
          assert st'.rows[k] == Stamp(st.rows[k], attempts[j].mark.value.webhookId, env.clock(j));
        }
      }
    }
  }

  /** A message whose send and `MarkSent` both succeeded is not fetched
      again by any later `GetUnsent`, and `ListSent` returns it with the
      non-empty identifier the webhook gave and the time of the update. */
  lemma DeliveredThenListed(cfg: Config, env: Env, st: Store, err: Option<ExecError>, st': Store, attempts: seq<Attempt>, i: int, limit: int)
    requires Valid(st) && cfg.msgPerTick >= 1 && cfg.msgCharLimit >= 0 && RandomOk(env)
    requires ExecuteOutcome(cfg, env, st, err, st', attempts)
    requires 0 <= i < |attempts| && Persisted(attempts[i]) && limit >= 1
    ensures forall j | 0 <= j < |GetUnsent(st', limit)| :: GetUnsent(st', limit)[j].id != attempts[i].message.id
    ensures exists m | m in ListSent(st') ::
              && m.id == attempts[i].message.id
              && m.webhookMsgId == attempts[i].result.value && |m.webhookMsgId| > 0
              && m.sentAt == Some(env.clock(i))
  {
    var b := GetUnsent(st, cfg.msgPerTick);
    assert AttemptFor(cfg, env, i, b[i], attempts[i]);
    var k :| 0 <= k < |st.rows| && st.rows[k] == b[i];
    assert st'.rows[k] == Stamp(st.rows[k], attempts[i].mark.value.webhookId, env.clock(i));
    SentNotFetched(st', k, limit);
  }
}
